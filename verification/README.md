# Exynos 7885 firmware: console, boot-image and eMMC cores

The repository is a UEFI firmware package with the tool that builds its boot images. This project models the four parts
whose difficulty is index, layout and cursor arithmetic, and proves what each of them is for.

**Console splitter.** Several physical consoles appear as one. `ModeMap` gives the meaning of the mode map on values: a
table with a row per published text mode and a column per device, what adding a device does to it, and what every table
built that way keeps. `FlatTable` is the in-place row filter on the flat array, including the case in which the filter
flags are a column of the array being filtered. `TextOutSplitter` is the splitter itself, a class over the arrays of the
source, each method proved against `ModeMap`. `TextOutRuns` closes over whole runs of additions and deletions.
`CrossIntersection` cuts the ConOut and StdErr splitters down to shared modes. `NotifyMatrix` is the console-in
splitter's matrix of notify handles with its two rollback loops; `KeyQueue` its key queue. They serve the Simple Text
Output Protocol (section 12.4 of the UEFI Specification 2.10) and the Simple Text Input Ex Protocol (section 12.2).

**Graphics console.** `TextConsole` proves the run-drawing OutputString, with its nested calls, against a terminal that
takes one character at a time. `TextModes` is the table of text modes for a screen.

**Boot images.** `BootBytes` has packed fields, page padding and a file that remembers which field it holds where.
`Cmdline`, `BootImage`, `RamdiskTable` and `VendorBoot` write the images; the readers in `BootImage` and `VendorBoot`
know only the format (header fields and page rounding), not the writer.

**eMMC.** `DescriptorChain` builds the DMA descriptor chain and gives the engine that walks it; `EmmcTransfer` is the
driver from one command up to SdReadWrite.

`Common` and `Keystrokes` hold the few types and constants that several modules use.

How to read the contracts:

- A device is a value with an identity and its QueryMode answers; a keyboard, the card and the DMA engine are objects
  that do what they are asked or fail. Whether an external call or an allocation succeeds is a parameter.
- The splitter methods are specified by a ghost `table` and `attached` list that `Valid()` ties to the arrays.
  `Canonical(devs, t)` says that `t` is the table that adding `devs` in order to an empty splitter gives (the same rows,
  and the same query data at every mode of the first device); `Sound` that every cell of a row from 2 on names a mode of
  its device with the row's reported geometry. Rows 0 and 1 stay
  whatever the devices support; `Cell0` and `Cell1` say what they hold.
- `TextConsole.Like(t, u, exact)` is equality of cursor, width and size, and of the cells too when `exact` holds, which is
  when every character printed, and the space, has a glyph.
- `Typed` says what one character does to the cells and the cursor, `Covers` when a registration stands for another, `Counts`
  which polled keys are queued, and `HeaderIs` what the bytes of a header are; each is written out from the protocol or the
  format and shares nothing with the code it is about.
- A fault of the image writer is an `Outcome`; `StructError` stands for a value that its packed format cannot hold.
- A transfer's effect is `Moved`: the bytes on one side replace those on the other and nothing else changes.

Places where the code differs from what its comments or its design suggest, kept as the code has them:

- Mode 0 of the graphics console is 90x80, where the comment says 80x25; it is inside the screen only from 720 x 1520
  pixels on (`TextModes.Mode0Centred`).
- OutputString restores the whole attribute at its end, so a width control does not outlive its call; that is the only
  reason why printing two strings can differ from printing their concatenation (`TextConsole.OutputConcatExactly`).
- The modes common to all devices are published whatever devices are added only if no mode from 2 on of the first device
  is 0x0 or repeats an earlier mode (`ModeMap.PublishesCommonIff`). A repeat is lost beside an equal device
  (`ModeMap.RepeatIsLost`), though a repeat of mode 1 can stay (`ModeMap.RepeatOfMode1CanStay`); a 0x0 mode is lost beside a
  device without mode 1 (`ModeMap.ZeroIsLost`).
- In the cross-intersection only the first StdErr mode of a geometry can survive (`CrossIntersection.RightSurvives`).
- A signature file shorter than 4096 bytes is filled up with zeros, as the header says; an empty one leaves no signature
  section, although the header still gives 4096 bytes (`BootImage.WholeSignature`).
- A fragment name is taken even if its entry is refused afterwards for its board id or its file
  (`RamdiskTable.Builder.AddEntry`).
- A request that starts on the card but runs past its end is not refused beforehand; the passes before the end are
  carried out (`EmmcTransfer.Driver.SdReadWrite`).

## Model

| member | source | states |
|---|---|---|
| `FlatTable.GetIntersection` | EXYNOS7885Pkg/Drivers/ConSplitterDxe/ConSplitter.c:2422-2480 | The in-place filter, also when the added map is a column of the table being filtered: the rows left are exactly the kept rows in order, MaxMode is their count, the current mode is renumbered or -1 |
| `ModeMap.SurvivorsExact` | EXYNOS7885Pkg/Drivers/ConSplitterDxe/ConSplitter.c:2443-2475 | The filter is stable and exact: rows 0 and 1 stay in place, a later row stays exactly when its entry is not -1, order is kept |
| `ModeMap.CurrentFollowsRow` | EXYNOS7885Pkg/Drivers/ConSplitterDxe/ConSplitter.c:2456-2477 | A valid current mode denotes the same row after filtering, and becomes -1 exactly when that row went |
| `ModeMap.CutFollowsRow` | EXYNOS7885Pkg/Drivers/ConSplitterDxe/ConSplitter.c:2703-2723 | When the two splitters are cut, the current mode follows its row, and falls back to mode 0 when the row went |
| `FlatTable.RowAfterCopy` | EXYNOS7885Pkg/Drivers/ConSplitterDxe/ConSplitter.c:2465-2469 | Moving one row to the front changes no other row of the flat table |
| `ModeMap.MarkedExactly` | EXYNOS7885Pkg/Drivers/ConSplitterDxe/ConSplitter.c:2541-2550 | A row is marked exactly when some mode of the new device has its geometry and no earlier row took that mode |
| `ModeMap.MarkedIs` | EXYNOS7885Pkg/Drivers/ConSplitterDxe/ConSplitter.c:2541-2550 | Every cell of a new column, rows 0 and 1 included, is the last mode that looks up to the row, or -1 when none does, mode 1 standing in for an unsupported one |
| `ModeMap.MarkedRow0` | EXYNOS7885Pkg/Drivers/ConSplitterDxe/ConSplitter.c:2541-2550 | Row 0 of a new column names a mode with the geometry reported for mode 0, and is -1 exactly when the device has none |
| `ModeMap.MarkedRow1` | EXYNOS7885Pkg/Drivers/ConSplitterDxe/ConSplitter.c:2523-2550 | What row 1 of a new column holds, for a device with and without mode 1 |
| `ModeMap.QueryAtExactly` | EXYNOS7885Pkg/Drivers/ConSplitterDxe/ConSplitter.c:2523-2537 | Query data changes only when mode 1 is unsupported, and then only entry 1, to 0x0 |
| `ModeMap.RowSurvivesExactly` | EXYNOS7885Pkg/Drivers/ConSplitterDxe/ConSplitter.c:2518-2566 | From row 2 on, a row survives a further device exactly when one of that device's modes is looked up to it |
| `ModeMap.SyncKeepsSound` | EXYNOS7885Pkg/Drivers/ConSplitterDxe/ConSplitter.c:2490-2569 | Adding a device keeps every cell of every published mode from 2 on naming a mode of its device with the geometry that QueryMode reports |
| `ModeMap.CompactKeepsSound` | EXYNOS7885Pkg/Drivers/ConSplitterDxe/ConSplitter.c:2703-2723 | Dropping any rows keeps that property |
| `ModeMap.SurvivesIffSupported` | EXYNOS7885Pkg/Drivers/ConSplitterDxe/ConSplitter.c:2541-2566 | When the first device's modes from 2 on are neither 0x0 nor repeats, a published mode survives a further device exactly when the device supports its geometry |
| `ModeMap.PublishedIffCommon` | EXYNOS7885Pkg/Drivers/ConSplitterDxe/ConSplitter.c:2490-2569 | Under the same condition, after any list of devices a mode from 2 on of the first is published exactly when every later device supports its geometry |
| `ModeMap.PublishesCommonIff` | EXYNOS7885Pkg/Drivers/ConSplitterDxe/ConSplitter.c:2490-2569 | That condition is exact: the common modes are published whatever devices are added if and only if no mode from 2 on of the first device is 0x0 or repeats an earlier one |
| `ModeMap.RepeatIsLost` | EXYNOS7885Pkg/Drivers/ConSplitterDxe/ConSplitter.c:2541-2550 | The first failing input: a mode that repeats an earlier one is not published when the device is added beside itself, though both support it |
| `ModeMap.ZeroIsLost` | EXYNOS7885Pkg/Drivers/ConSplitterDxe/ConSplitter.c:2523-2550 | The second: a 0x0 mode is not published beside a device without mode 1 that offers 0x0, which clears entry 1 and is found there |
| `ModeMap.RepeatOfMode1CanStay` | EXYNOS7885Pkg/Drivers/ConSplitterDxe/ConSplitter.c:2523-2550 | A repeat of mode 1 can stay published: a device without mode 1 clears the entry it repeats |
| `ModeMap.DuplicateRowIsDropped` | EXYNOS7885Pkg/Drivers/ConSplitterDxe/ConSplitter.c:2541-2550 | A row that reports the geometry of an earlier row, neither keyed by mode 1, is dropped by every further device |
| `ModeMap.SyncKeepsCanonical` | EXYNOS7885Pkg/Drivers/ConSplitterDxe/ConSplitter.c:3439-3452 | A table equal to the one an empty splitter would build stays so when a device is added |
| `ModeMap.FirstTableIsCanonical` | EXYNOS7885Pkg/Drivers/ConSplitterDxe/ConSplitter.c:2379-2400 | The first device gives that table whatever the query data held before |
| `TextOutSplitter.Splitter.GrowQueryData` | EXYNOS7885Pkg/Drivers/ConSplitterDxe/ConSplitter.c:2356-2365 | Query data grows, by less than one unit more than needed, until every mode of the first device has a place; old entries are kept |
| `TextOutSplitter.Splitter.GrowMapTable` | EXYNOS7885Pkg/Drivers/ConSplitterDxe/ConSplitter.c:2247-2326 | Re-striding copies every published row to its new place and blanks the rest, all indices in bounds |
| `TextOutSplitter.Splitter.AddOutputMode` | EXYNOS7885Pkg/Drivers/ConSplitterDxe/ConSplitter.c:2339-2403 | The first device's modes become the rows and its answers the query data, mode 1 cleared when unsupported |
| `TextOutSplitter.Splitter.SyncOutputMode` | EXYNOS7885Pkg/Drivers/ConSplitterDxe/ConSplitter.c:2490-2569 | The in-place code computes the table and current mode of the functional description |
| `TextOutSplitter.Splitter.AddDevice` | EXYNOS7885Pkg/Drivers/ConSplitterDxe/ConSplitter.c:3166-3200 | The device is attached last, the table is the first device's or the synchronised one, all invariants hold, canonical stays canonical |
| `TextOutSplitter.Splitter.DeleteDevice` | EXYNOS7885Pkg/Drivers/ConSplitterDxe/ConSplitter.c:3351-3452 | The device is taken out and the map rebuilt; with devices left it is the one adding them in order to an empty splitter gives, without any it is reset to 80x25 |
| `TextOutSplitter.Splitter.SetMode` | EXYNOS7885Pkg/Drivers/ConSplitterDxe/ConSplitter.c:4858-4899 | A published mode other than the current one is passed on as the row's cells, in every row including 0 and 1: each attached device is told a mode of its own with the reported geometry, or what `ModeMap.RowTells` says for rows 0 and 1; a number that is not published changes nothing |
| `ModeMap.RowTells` | EXYNOS7885Pkg/Drivers/ConSplitterDxe/ConSplitter.c:4858-4899 | In every published row, what each device is told: from row 2 on its own mode of the reported geometry, in rows 0 and 1 that or, where the device has none, the stand-in written out cell by cell |
| `TextOutRuns.Run` | EXYNOS7885Pkg/Drivers/ConSplitterDxe/ConSplitter.c:3166-3452 | After any run of additions and deletions the map depends only on the devices left: it equals adding them in order to an empty splitter, and is sound |
| `TextOutRuns.RemainingNext` | EXYNOS7885Pkg/Drivers/ConSplitterDxe/ConSplitter.c:3166-3452 | Which devices are left after a run: each addition puts one at the end, each deletion takes the first with its identity |
| `CrossIntersection.Intersect` | EXYNOS7885Pkg/Drivers/ConSplitterDxe/ConSplitter.c:2641-2727 | Both splitters are cut to their partner modes, each through the in-place filter, and both current modes follow their row or fall back to mode 0 |
| `CrossIntersection.MarkShared` | EXYNOS7885Pkg/Drivers/ConSplitterDxe/ConSplitter.c:2674-2697 | The two maps mark the ConOut modes that have a StdErr partner and the StdErr modes that are a first match |
| `CrossIntersection.LeftHasRight` | EXYNOS7885Pkg/Drivers/ConSplitterDxe/ConSplitter.c:2674-2723 | Every ConOut mode from 2 on that survives has a surviving StdErr mode of its geometry, although only the first match was marked |
| `CrossIntersection.RightHasLeft` | EXYNOS7885Pkg/Drivers/ConSplitterDxe/ConSplitter.c:2674-2723 | Every StdErr mode from 2 on that survives has a surviving ConOut mode of its geometry |
| `CrossIntersection.LeftSurvives` | EXYNOS7885Pkg/Drivers/ConSplitterDxe/ConSplitter.c:2683-2694 | A ConOut mode from 2 on survives exactly when StdErr reports its geometry |
| `CrossIntersection.RightSurvives` | EXYNOS7885Pkg/Drivers/ConSplitterDxe/ConSplitter.c:2687-2691 | A StdErr mode from 2 on survives exactly when ConOut reports its geometry and no earlier StdErr mode does |
| `NotifyMatrix.Splitter.AddExDevice` | EXYNOS7885Pkg/Drivers/ConSplitterDxe/ConSplitter.c:1967-2030 | Succeeds exactly when there is or can be room and the keyboard takes every notification; then the whole list is registered on it, otherwise it holds what it held, and no other keyboard is touched |
| `NotifyMatrix.Splitter.RegisterAll` | EXYNOS7885Pkg/Drivers/ConSplitterDxe/ConSplitter.c:2005-2024 | Exactly when every registration works, all notifications are on the new keyboard with their handles stored; otherwise every one is taken back |
| `NotifyMatrix.Splitter.Rollback` | EXYNOS7885Pkg/Drivers/ConSplitterDxe/ConSplitter.c:2014-2020 | Walking back along the list removes exactly what was registered on the new keyboard |
| `NotifyMatrix.Splitter.GrowHandleLists` | EXYNOS7885Pkg/Drivers/ConSplitterDxe/ConSplitter.c:1968-1980 | Every handle list keeps its entries; all get 32 more exactly when every reallocation works |
| `NotifyMatrix.Splitter.RegisterKeyNotify` | EXYNOS7885Pkg/Drivers/ConSplitterDxe/ConSplitter.c:4034-4094 | On success an entry with this handle has the same function, scan code and character, and shift and toggle state either none or the same; the list is left alone exactly when it held such an entry or the call fails, and otherwise the notification is on every keyboard and appended |
| `NotifyMatrix.FirstSameCovers` | EXYNOS7885Pkg/Drivers/ConSplitterDxe/ConSplitter.c:4034-4044 | The search finds an entry exactly when one has the same function, scan code and character with a shift and toggle state that is none or the same |
| `NotifyMatrix.OnlyOneId` | EXYNOS7885Pkg/Drivers/ConSplitterDxe/ConSplitter.c:4121-4130 | Handles of listed notifications are distinct: the entry with a handle is the only one |
| `NotifyMatrix.Splitter.UnregisterKeyNotify` | EXYNOS7885Pkg/Drivers/ConSplitterDxe/ConSplitter.c:4121-4143 | The notification with the handle is released on every keyboard and taken from the list, after which no notification has that handle; an unknown handle changes nothing |
| `NotifyMatrix.LiveIffListed` | EXYNOS7885Pkg/Drivers/ConSplitterDxe/ConSplitter.c:2005-2030 | Beyond its own registrations, a keyboard holds a registration under a handle exactly when the list names that handle for it |
| `NotifyMatrix.RegisteredUndo` | EXYNOS7885Pkg/Drivers/ConSplitterDxe/ConSplitter.c:4077-4082 | Releasing the last registration of a partial registration takes it back exactly |
| `NotifyMatrix.MirrorAppend` | EXYNOS7885Pkg/Drivers/ConSplitterDxe/ConSplitter.c:4066-4090 | Registering on every keyboard under new handles keeps list and keyboards in step |
| `NotifyMatrix.MirrorRemove` | EXYNOS7885Pkg/Drivers/ConSplitterDxe/ConSplitter.c:4130-4137 | Releasing on every keyboard keeps list and keyboards in step |
| `KeyQueue.Splitter.ReadKeyStrokeEx` | EXYNOS7885Pkg/Drivers/ConSplitterDxe/ConSplitter.c:3843-3919 | One read delivers the head of the queue, polling only when the queue is empty: then the queue is filled with the polled keys that carry a scan code or a character, or with all when state changes are exported, in device order |
| `KeyQueue.Splitter.PollKeyboards` | EXYNOS7885Pkg/Drivers/ConSplitterDxe/ConSplitter.c:3850-3904 | Exactly the answered keys with a scan code or a character, or all when state changes are exported, are queued in device order, each with the combined key state, and fit the queue |
| `KeyQueue.BatchPicks` | EXYNOS7885Pkg/Drivers/ConSplitterDxe/ConSplitter.c:3857-3904 | The batch is the data at strictly increasing places of the poll, a place being among them exactly when its keyboard gave a key that counts |
| `KeyQueue.Splitter.Dequeue` | EXYNOS7885Pkg/Drivers/ConSplitterDxe/ConSplitter.c:3521-3541 | The first key is taken and the others move up |
| `KeyQueue.Splitter.AddExDevice` | EXYNOS7885Pkg/Drivers/ConSplitterDxe/ConSplitter.c:1982-2030 | The queue grows with the keyboard list, keeps its keys and never has fewer places than there are keyboards; fails exactly when room is needed and one of the two reallocations fails |
| `KeyQueue.KeysConserved` | EXYNOS7885Pkg/Drivers/ConSplitterDxe/ConSplitter.c:3843-3919 | Over any run of reads, delivered keys followed by the queue are the old queue followed by the accepted keys, in order |
| `KeyQueue.CombinedExactly` | EXYNOS7885Pkg/Drivers/ConSplitterDxe/ConSplitter.c:3857-3876 | A bit of the combined state is set exactly when a keyboard that answered sets it together with the valid bit, 31 of the shift state and 7 of the toggle state |
| `TextConsole.Console.OutputString` | EXYNOS7885Pkg/Drivers/GraphicsConsoleDxe/GraphicsConsole.c:994-1176 | Terminates on every string of narrow, wide and control characters and leaves the cursor in range; the screen is reached by typing the characters one at a time, each changing the cells and the cursor as written out in `Typed`, and a string that fits its line leaves its own characters from the old cursor on and every other cell as it was |
| `TextConsole.TypeShows` | EXYNOS7885Pkg/Drivers/GraphicsConsoleDxe/GraphicsConsole.c:995-1173 | What typing one character does to the grid and the cursor, cell by cell: its own cells at the cursor, a wide one as two halves, line feed, return, backspace, wrap and scroll |
| `TextConsole.FittingShows` | EXYNOS7885Pkg/Drivers/GraphicsConsoleDxe/GraphicsConsole.c:1122-1173 | A printable string that fits its line leaves character i at column + i, or its halves at twice that, and no other cell changed |
| `TextConsole.OutputConcatExactly` | EXYNOS7885Pkg/Drivers/GraphicsConsoleDxe/GraphicsConsole.c:992-1176 | Printing `a` and then `b` is printing `a + b` for every `b` exactly when `a` leaves the width attribute as it was |
| `TextConsole.WidthKept` | EXYNOS7885Pkg/Drivers/GraphicsConsoleDxe/GraphicsConsole.c:1102-1107 | A string without width controls leaves the width attribute as it was |
| `TextConsole.OutputBoth` | EXYNOS7885Pkg/Drivers/GraphicsConsoleDxe/GraphicsConsole.c:992-1176 | Two calls, the first without width controls, leave the console's grid and cursor as one call with both strings would, when every character has a glyph |
| `TextConsole.DrawnIsRun` | EXYNOS7885Pkg/Drivers/GraphicsConsoleDxe/GraphicsConsole.c:1122-1173 | Drawing a measured run at once, moving and ending the line is printing its characters one by one |
| `TextConsole.Console.MeasureRun` | EXYNOS7885Pkg/Drivers/GraphicsConsoleDxe/GraphicsConsole.c:1122-1151 | Count and width of the run that fits the line, a wide character never split over two lines |
| `TextConsole.Console.PrintRun` | EXYNOS7885Pkg/Drivers/GraphicsConsoleDxe/GraphicsConsole.c:1153-1172 | One run is drawn and the line ended; no character is consumed only for a wide one in the last column, after which the column is 0 |
| `TextConsole.Console.StepBack` | EXYNOS7885Pkg/Drivers/GraphicsConsoleDxe/GraphicsConsole.c:1000-1018 | Backspace moves back one cell, up to the end of the row above when needed, and blanks it |
| `TextConsole.Console.TypeControl` | EXYNOS7885Pkg/Drivers/GraphicsConsoleDxe/GraphicsConsole.c:995-1107 | Each control character does to the screen what the reference terminal does |
| `TextConsole.SpaceOutput` | EXYNOS7885Pkg/Drivers/GraphicsConsoleDxe/GraphicsConsole.c:1003-1013 | The nested call with a space prints one narrow blank and keeps the outer width |
| `TextConsole.CrLfOutput` | EXYNOS7885Pkg/Drivers/GraphicsConsoleDxe/GraphicsConsole.c:1168-1172 | The nested call with a line end wraps |
| `TextModes.InitializeTextModes` | EXYNOS7885Pkg/Drivers/GraphicsConsoleDxe/GraphicsConsole.c:255-368 | The table of at most Count + 2 entries holds modes 0 and 1 and then the candidates that fit, in order, without repeats |
| `TextModes.OfferedIff` | EXYNOS7885Pkg/Drivers/GraphicsConsoleDxe/GraphicsConsole.c:302-348 | A geometry is offered exactly when it is 90x80, or lies on the screen with cells of 8 x 19 pixels and is 80x50, 100x31, 128x40, 160x42, 240x56 or the full screen |
| `TextModes.ModesDistinct` | EXYNOS7885Pkg/Drivers/GraphicsConsoleDxe/GraphicsConsole.c:327-338 | No two entries have the same geometry |
| `TextModes.OnlyAppended` | EXYNOS7885Pkg/Drivers/GraphicsConsoleDxe/GraphicsConsole.c:317-348 | Later candidates only add entries at the end |
| `TextModes.InOrder` | EXYNOS7885Pkg/Drivers/GraphicsConsoleDxe/GraphicsConsole.c:317-348 | The modes from the third on follow the order of the candidate list, the full screen last |
| `TextModes.FirstEntry` | EXYNOS7885Pkg/Drivers/GraphicsConsoleDxe/GraphicsConsole.c:293-300 | Mode 0 number by number: 90x80 on any screen, with margins that wrap around on a smaller one |
| `TextModes.SecondEntry` | EXYNOS7885Pkg/Drivers/GraphicsConsoleDxe/GraphicsConsole.c:302-312 | Mode 1 number by number: 80x50 from 640 x 950 pixels on, 0x0 without margins below |
| `TextModes.AllCentred` | EXYNOS7885Pkg/Drivers/GraphicsConsoleDxe/GraphicsConsole.c:302-346 | Every supported mode from index 1 on lies inside the screen with equal margins, give or take a pixel |
| `TextModes.Mode0Centred` | EXYNOS7885Pkg/Drivers/GraphicsConsoleDxe/GraphicsConsole.c:293-300 | Mode 0 is inside the screen exactly on screens of at least 720 x 1520 pixels |
| `BootBytes.MaskIsRemainder` | mkbootimg.py:85-87 | Masking with one less than a power of two is the remainder |
| `BootBytes.PaddingMeetsPages` | mkbootimg.py:85-92 | From a page boundary, padding by mask ends where counting pages by division does |
| `BootBytes.LittleEndianRoundTrip` | mkbootimg.py:113-124 | A packed number is read back exactly when it fits its width |
| `BootBytes.LittleEndianDigit` | mkbootimg.py:113-124 | Byte i of a packed number is its digit i to base 256 |
| `BootBytes.PaddingValue` | mkbootimg.py:85-87 | The padding is what is missing to a whole page, and none at a page boundary |
| `BootBytes.OutFile.Pack` | mkbootimg.py:113-124 | A field that its format can hold is appended at the end and readable there; any other raises and changes nothing |
| `BootBytes.OutFile.WritePaddedFile` | mkbootimg.py:352-356 | A file is followed by zeros up to the next page; an absent file writes nothing |
| `BootImage.RecoveryDtboOffsetIsPosition` | mkbootimg.py:95-104 | The advertised dtbo offset is the position the sections before it lead to, absent and empty ones included |
| `BootImage.DtboReads` | mkbootimg.py:237-246 | The dtbo is found at the offset and of the size written in the header |
| `BootImage.ImageReads` | mkbootimg.py:185-264 | A reader that knows only the header recovers every section of every header version, the signature of version 4 included |
| `BootImage.Writer.WriteOldHeader` | mkbootimg.py:192-264 | Headers 0 to 2 have each field at its position, fill one page, and fail exactly when a value does not fit or the dtb is missing |
| `BootImage.Writer.WriteNewHeader` | mkbootimg.py:107-130 | The same for headers 3 and 4 |
| `BootImage.HeaderReads` | mkbootimg.py:107-264 | The bytes of every header of versions 0 to 4, field by field from the arguments, zeros to the end of the page included |
| `BootImage.Writer.WriteData` | mkbootimg.py:624-634 | Each section starts at the page boundary after the one before it |
| `BootImage.Writer.WriteImage` | mkbootimg.py:660-668 | The whole image: which arguments are refused and for what, as ranges of the supplied values; the number of its pages, every byte of its header, and that a reader of the header finds every section as supplied |
| `Cmdline.SplitFitsIff` | mkbootimg.py:559-563 | Below version 3, AsciizBytes accepts exactly the arguments of fewer than 1535 bytes, which are those whose two parts fit their fields; both fields then hold a zero |
| `Cmdline.SplitRoundTrip` | mkbootimg.py:480-485 | Reading both fields up to their first zero and joining them gives the argument exactly when it holds no zero |
| `Cmdline.WholeRoundTrip` | mkbootimg.py:484-487 | From version 3 on the single field gives the argument back under the same condition |
| `BootImage.CmdlineReads` | mkbootimg.py:107-235 | The same read from the written header, in every version |
| `RamdiskTable.Builder.AddEntry` | mkbootimg.py:308-333 | A fragment is recorded at the old total with its size, or refused for a banned or repeated name, a bad board id or a missing file; the name is taken once it passes the name checks |
| `RamdiskTable.TilesOnce` | mkbootimg.py:330-333 | Every byte of the total belongs to exactly one fragment and no byte beyond to any |
| `RamdiskTable.TiledNext` | mkbootimg.py:330-333 | The first fragment starts at 0 and each ends where the next starts |
| `RamdiskTable.Builder.WriteRamdisksPadded` | mkbootimg.py:335-339 | Every fragment lies at its recorded offset from the start of the section |
| `RamdiskTable.Builder.WriteEntriesPadded` | mkbootimg.py:341-349 | Entry k lies 108 k bytes into the table; fails exactly when the size, offset or type of some entry is not below 2^32 |
| `RamdiskTable.NameReads` | mkbootimg.py:346-347 | A name survives its fixed field exactly when it has at most 32 bytes without trailing zeros |
| `RamdiskTable.BoardReads` | mkbootimg.py:319-348 | Each word of a board id is read back |
| `VendorBoot.Writer.WriteVendorBootHeader` | mkbootimg.py:133-182 | Each header field at its position, then zeros to a page boundary; fails exactly when the dtb is empty or a value does not fit |
| `VendorBoot.HeaderReads` | mkbootimg.py:133-182 | The bytes of the header, field by field from the arguments, zeros to the end of the page included |
| `VendorBoot.Writer.WriteVendorBootData` | mkbootimg.py:637-647 | Each section where page rounding of the sizes before it puts it |
| `VendorBoot.EntryReads` | mkbootimg.py:341-349 | A table entry is read back as supplied |
| `VendorBoot.VendorReads` | mkbootimg.py:637-644 | A reader of header fields alone recovers fragments, dtb, entries and bootconfig |
| `VendorBoot.Writer.WriteImage` | mkbootimg.py:652-659 | The whole vendor image: which arguments are refused and for what, as ranges of the supplied values; the number of its pages, every byte of its header, and that a reader of the header finds every section as supplied |
| `DescriptorChain.ChainTiles` | EXYNOS7885Pkg/Drivers/eMMCDxe/eMMCDxe_5250.c:432-456 | Segment lengths add up to the transfer and each segment starts where the one before it ends |
| `DescriptorChain.ChainFlags` | EXYNOS7885Pkg/Drivers/eMMCDxe/eMMCDxe_5250.c:435-439 | Only the first descriptor is marked first and only the last is marked last |
| `DescriptorChain.ChainLinks` | EXYNOS7885Pkg/Drivers/eMMCDxe/eMMCDxe_5250.c:341-349 | Each descriptor leads to the next and the last back to the base |
| `DescriptorChain.ChainFitsIff` | EXYNOS7885Pkg/Drivers/eMMCDxe/eMMCDxe_5250.c:432-456 | The chain stays below the bounce buffer exactly up to 2048 blocks |
| `DescriptorChain.ChainWalks` | EXYNOS7885Pkg/Drivers/eMMCDxe/eMMCDxe_5250.c:432-458 | An engine walking the chain from the base meets exactly the segments of the transfer and stops |
| `DescriptorChain.SegmentsGather` | EXYNOS7885Pkg/Drivers/eMMCDxe/eMMCDxe_5250.c:399-402 | For a write the segments name the front of the bounce buffer, in order |
| `DescriptorChain.SegmentsScatter` | EXYNOS7885Pkg/Drivers/eMMCDxe/eMMCDxe_5250.c:582-589 | For a read the data fills the front of the bounce buffer, in order, and nothing else |
| `DescriptorChain.DescriptorTable.Prepare` | EXYNOS7885Pkg/Drivers/eMMCDxe/eMMCDxe_5250.c:398-456 | The table holds the chain for the transfer and is otherwise cleared |
| `EmmcTransfer.EffectOfChain` | EXYNOS7885Pkg/Drivers/eMMCDxe/eMMCDxe_5250.c:353-473 | With the chain in place and the command chosen by block count, the engine moves the front of the bounce buffer |
| `EmmcTransfer.Driver.TransferBlock` | EXYNOS7885Pkg/Drivers/eMMCDxe/eMMCDxe.c:653-734 | In either mode and addressing, the blocks move between card and buffer, or nothing moves |
| `EmmcTransfer.Driver.TransferPasses` | EXYNOS7885Pkg/Drivers/eMMCDxe/eMMCDxe.c:862-911 | The passes issued are those of the plan; what has moved is exactly what the card and its working transfers allow, and everything exactly when the request completes |
| `EmmcTransfer.CarriedAllIff` | EXYNOS7885Pkg/Drivers/eMMCDxe/eMMCDxe.c:864-911 | Everything is moved exactly when the range is on the card and every pass is carried out |
| `EmmcTransfer.CarriedStops` | EXYNOS7885Pkg/Drivers/eMMCDxe/eMMCDxe.c:868-876 | When not everything is moved, either all working transfers were full passes or the next pass does not fit the card |
| `EmmcTransfer.CarriedWhole` | EXYNOS7885Pkg/Drivers/eMMCDxe/eMMCDxe.c:868-880 | What is moved is whole blocks, all on the card |
| `EmmcTransfer.Driver.SdReadWrite` | EXYNOS7885Pkg/Drivers/eMMCDxe/eMMCDxe.c:801-926 | InvalidParameter exactly for a missing buffer or a first block beyond the card, BadBufferSize exactly for a size that is no multiple of 512 otherwise, Success exactly when the range is on the card and all its passes work; and exactly how much has moved on success and on failure |
| `EmmcTransfer.PassesOnce` | EXYNOS7885Pkg/Drivers/eMMCDxe/eMMCDxe.c:864-911 | Every requested block is in exactly one pass and no other block in any |
| `EmmcTransfer.PassesMap` | EXYNOS7885Pkg/Drivers/eMMCDxe/eMMCDxe.c:868-880 | Whatever the pass size, a block of the card goes with the same place of the buffer, and no pass exceeds the maximum |
| `EmmcTransfer.PassCount` | EXYNOS7885Pkg/Drivers/eMMCDxe/eMMCDxe.c:864-911 | The number of passes is the number of maximal passes the size rounds up to |
| `EmmcTransfer.WriteAndReadBack` | EXYNOS7885Pkg/Drivers/eMMCDxe/eMMCDxe.c:801-926 | A write followed by a read of the same range, both through SdReadWrite in any mode and addressing: the exact status of each, and when both succeed the data comes back and every block outside the range is unchanged |
| `EmmcTransfer.WriteThenRead` | EXYNOS7885Pkg/Drivers/eMMCDxe/eMMCDxe.c:862-883 | Reading a range after writing it gives the bytes written |
| `EmmcTransfer.OtherBlocksKept` | EXYNOS7885Pkg/Drivers/eMMCDxe/eMMCDxe.c:862-883 | A write leaves every block outside its range as it was |

## Left out

- TextOutSplitter.Splitter.AddDevice: allocation succeeds; the console-mode choice, graphics and UGA outputs and protocol installation at the end of the source's function are not modelled.
- TextOutSplitter.Splitter.DeleteDevice: the equality with a fresh splitter is about rows, MaxMode and query data, not the current mode, which the source keeps from before; graphics counters and protocols are left out, and so is the closing cross-intersection, which does nothing when no device is shared.
- TextOutSplitter.Splitter.SetMode: what a device answers and clearing the screen are left out; a device found in its mode already, which the source may skip while a device is being added, counts as told.
- TextOutRuns.Run: a device answers QueryMode alike each time and fails at most for mode 1; no device is shared with the other splitter, so that the closing cross-intersection does nothing; a shared one is `CrossIntersection`'s subject. The choice of the console mode after an addition is left out.
- CrossIntersection.Intersect: starts after the search for a shared device, whose inner pointer is not reset for each outer device.
- ModeMap.PublishedIffCommon: speaks of first devices that fail at most for mode 1; the condition on their geometries is exact by `ModeMap.PublishesCommonIff`.
- NotifyMatrix.Splitter.AddExDevice: a keyboard is attached once and is a well-behaved one that hands out unused handles; SetState and event plumbing are left out, and the key queue's growth is modelled in `KeyQueue`.
- NotifyMatrix.Splitter.RegisterKeyNotify: notifications are values in a sequence with a number for the handle, not linked records in memory; null arguments are left out.
- Removing an Ex keyboard from the notify matrix: the source shifts the device list but not the handle lists.
- KeyQueue.Splitter.ReadKeyStrokeEx: connect-on-demand and the null argument are left out; so are Reset and the plain ReadKeyStroke, which drop keys on purpose.
- TextConsole.Console.OutputString: at least two columns (on one column a wide character never fits and the loop does not end) and one row; when a glyph is missing only cursor, width and size are claimed, since the font library decides what is drawn. Colours, pixels, cursor drawing and the warning status are left out.
- TextModes.AllCentred: excludes mode 0, treated in `TextModes.Mode0Centred`, and the cleared entry that stands for an unsupported mode 1. The assertion that a screen holds 80x25 is not needed and not assumed.
- Widths of mode counts (32 bits) and of list counts are unbounded here.
- Hash values, external signing and command-line parsing of mkbootimg.py: the digest and a ready signature are inputs. Files do not change while an image is written.
- BootImage.Writer.WriteImage: the version word is the sum of version and patch level, which is the source's bitwise or because a patch level has 11 bits; page sizes are the four the tool accepts.
- VendorBoot.VendorReads: names of at most 32 bytes without trailing zeros, which argument parsing ensures; `RamdiskTable.NameReads` shows that longer ones do not survive.
- EmmcTransfer.Driver.SdReadWrite: commands complete or fail without moving data; the busy wait, interrupts, timeouts and task priority are left out. The DMA area lies below 4 GB and a card has fewer than 2^32 blocks, or bytes if it is byte-addressed.
- EmmcTransfer.Driver.TransferBlock: FIFO words are moved as one block; the source steps its FIFO pointer by the machine word, 32 bits on the one architecture the package supports.
- EmmcTransfer.Driver.TransferPasses: one loop with the mode's maximum stands for the source's two, which differ only in that maximum.
- Erase, register set-up, clocks, pins and timers of the eMMC driver, and all other drivers of the package.
