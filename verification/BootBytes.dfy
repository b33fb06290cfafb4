/**
 Bytes, packed fields and page padding of the image writer.  A file records which field was written at which
 position, and keeps the promise that a reader finds it there.
 */
module BootBytes {
  import opened Common

  type byte = b: int | 0 <= b < 256

  datatype Error = StructError | EmptyDtb | UnsupportedVersion | SignatureTooLong | SecondNotSupported | BannedName | DuplicateName
                 | BadBoardId | BoardIdRange | NoSuchFile | NotVendorVersion | MissingRamdisk

  datatype Outcome = Pass | Fail(error: Error)
  {
    predicate IsFailure() { Fail? }
    function PropagateFailure(): Outcome requires IsFailure() { this }
  }

  /** The codes of ASCII characters. */
  function Ascii(s: string): (bytes: seq<byte>)
    ensures |bytes| == |s| && forall i :: 0 <= i < |s| && s[i] as int < 256 ==> bytes[i] == s[i] as int
  {
    seq(|s|, i requires 0 <= i < |s| => if s[i] as int < 256 then s[i] as int else 0)
  }

  // ---------- Integers as bytes ----------

  /** The `width` low bytes of `n`, lowest first. */
  function LittleEndian(n: nat, width: nat): (bytes: seq<byte>)
    ensures |bytes| == width
  {
    if width == 0 then [] else [n % 256] + LittleEndian(n / 256, width - 1)
  }

  function FromLittleEndian(bytes: seq<byte>): nat {
    if bytes == [] then 0 else bytes[0] + 256 * FromLittleEndian(bytes[1..])
  }

  function Capacity(width: nat): nat {
    if width == 0 then 1 else 256 * Capacity(width - 1)
  }

  /** Reading the bytes back gives the number, exactly when it fits them. */
  lemma {:induction false} LittleEndianRoundTrip(n: nat, width: nat)
    ensures FromLittleEndian(LittleEndian(n, width)) == n <==> n < Capacity(width)
  {
    if width == 0 {
    } else {
      LittleEndianRoundTrip(n / 256, width - 1);
      assert LittleEndian(n, width)[1..] == LittleEndian(n / 256, width - 1);
    }
  }

  // ---------- Page padding ----------

  function Pow2(k: nat): (p: nat)
    ensures p >= 1
  {
    if k == 0 then 1 else 2 * Pow2(k - 1)
  }

  /** Bitwise and. */
  function And(a: nat, b: nat): nat {
    if a == 0 || b == 0 then 0 else 2 * And(a / 2, b / 2) + (a % 2) * (b % 2)
  }

  lemma AtLeastOnce(times: int, d: nat)
    requires times >= 1
    ensures times * d >= d
  {
  }

  lemma RemainderIs(a: nat, d: nat, q: int, r: nat)
    requires r < d && a == q * d + r
    ensures a % d == r && a / d == q
  {
    var delta := q - a / d;
    assert delta * d == a % d - r;
    assert delta < 1 by { if delta >= 1 { AtLeastOnce(delta, d); } }
    assert -delta < 1 by { if -delta >= 1 { AtLeastOnce(-delta, d); } }
  }

  lemma HalvesRemainder(a: nat, half: nat)
    requires half > 0
    ensures a % (2 * half) == 2 * (a / 2 % half) + a % 2
  {
    var q, r := a / 2 / half, a / 2 % half;
    assert a / 2 == q * half + r;
    assert a == q * (2 * half) + (2 * r + a % 2);
    RemainderIs(a, 2 * half, q, 2 * r + a % 2);
  }

  /** Masking with one less than a power of two takes the remainder. */
  lemma {:induction false} MaskIsRemainder(a: nat, k: nat)
    ensures And(a, Pow2(k) - 1) == a % Pow2(k)
  {
    if k == 0 {
    } else if a == 0 {
      RemainderIs(0, Pow2(k), 0, 0);
    } else {
      var half, mask := Pow2(k - 1), Pow2(k) - 1;
      MaskIsRemainder(a / 2, k - 1);
      HalvesRemainder(a, half);
      assert mask / 2 == half - 1 && mask % 2 == 1;
      assert And(a, mask) == 2 * And(a / 2, mask / 2) + a % 2;
    }
  }

  predicate PageSize(page: nat) {
    page == 2048 || page == 4096 || page == 8192 || page == 16384
  }

  lemma PageIsPower(page: nat) returns (k: nat)
    requires PageSize(page)
    ensures page == Pow2(k)
  {
    k := if page == 2048 then 11 else if page == 4096 then 12 else if page == 8192 then 13 else 14;
    assert Pow2(11) == 2048;
    assert Pow2(12) == 2 * Pow2(11) && Pow2(13) == 2 * Pow2(12) && Pow2(14) == 2 * Pow2(13);
  }

  function Low(at: nat, page: nat): (low: nat)
    requires PageSize(page)
    ensures low == at % page
  {
    assert And(at, page - 1) == at % page by { var k := PageIsPower(page); MaskIsRemainder(at, k); }
    And(at, page - 1)
  }

  /** The zeros added at position `at`, by masking. */
  function Padding(at: nat, page: nat): (pad: nat)
    requires PageSize(page)
  {
    And(page - Low(at, page), page - 1)
  }

  /** The pages an image of `size` bytes occupies. */
  function Pages(size: nat, page: nat): nat
    requires page > 0
  {
    (size + page - 1) / page
  }

  /** The bytes of the pages an image of `size` bytes occupies. */
  function Spread(size: nat, page: nat): (bytes: nat)
    requires page > 0
    ensures size <= bytes
  {
    if size == 0 then 0 else if size <= page then page else page + Spread(size - page, page)
  }

  lemma {:induction false} SpreadIsPages(size: nat, page: nat)
    requires page > 0
    ensures Spread(size, page) == page * Pages(size, page)
  {
    if size == 0 {
      RemainderIs(page - 1, page, 0, page - 1);
    } else if size <= page {
      RemainderIs(size + page - 1, page, 1, size - 1);
    } else {
      SpreadIsPages(size - page, page);
      var q := Pages(size - page, page);
      RemainderIs(size + page - 1, page, q + 1, (size - 1) % page);
      assert page * (q + 1) == page * q + page;
    }
  }

  /** At the start of a page. */
  ghost predicate Aligned(at: nat, page: nat)
    requires page > 0
  {
    at == 0 || (page <= at && Aligned(at - page, page))
  }

  lemma {:induction false} AlignedIsMultiple(at: nat, page: nat)
    requires page > 0
    ensures Aligned(at, page) <==> at % page == 0
  {
    if at < page {
      RemainderIs(at, page, 0, at);
    } else {
      AlignedIsMultiple(at - page, page);
      RemainderIs(at, page, (at - page) / page + 1, (at - page) % page);
    }
  }

  lemma MaskedGap(k: nat, low: nat)
    requires low < Pow2(k)
    ensures And(Pow2(k) - low, Pow2(k) - 1) == if low == 0 then 0 else Pow2(k) - low
  {
    MaskIsRemainder(Pow2(k) - low, k);
    if low == 0 {
      RemainderIs(Pow2(k), Pow2(k), 1, 0);
    } else {
      RemainderIs(Pow2(k) - low, Pow2(k), 0, Pow2(k) - low);
    }
  }

  /** Masking twice gives the bytes missing to a page, none when none is missing. */
  lemma PaddingValue(at: nat, page: nat)
    requires PageSize(page)
    ensures Padding(at, page) == if at % page == 0 then 0 else page - at % page
  {
    var k := PageIsPower(page);
    MaskedGap(k, Low(at, page));
  }

  lemma {:induction false} SpreadValue(size: nat, page: nat)
    requires page > 0
    ensures Spread(size, page) == size + if size % page == 0 then 0 else page - size % page
  {
    if size < page {
      RemainderIs(size, page, 0, size);
    } else {
      if page < size {
        SpreadValue(size - page, page);
      } else {
        RemainderIs(0, page, 0, 0);
      }
      RemainderIs(size, page, (size - page) / page + 1, (size - page) % page);
    }
  }

  lemma SkipMultiple(start: nat, more: nat, d: nat)
    requires d > 0 && start % d == 0
    ensures (start + more) % d == more % d
  {
    var s, q := start / d, more / d;
    assert start == s * d && more == q * d + more % d;
    assert start + more == (s + q) * d + more % d;
    RemainderIs(start + more, d, s + q, more % d);
  }

  /** Padding by mask and counting pages by division agree: a section ends where its last page does. */
  lemma PaddingMeetsPages(start: nat, size: nat, page: nat)
    requires PageSize(page) && Aligned(start, page)
    ensures start + size + Padding(start + size, page) == start + Spread(size, page)
    ensures Aligned(start + Spread(size, page), page)
  {
    AlignedIsMultiple(start, page);
    SkipMultiple(start, size, page);
    PaddingValue(start + size, page);
    SpreadValue(size, page);
    SpreadIsPages(size, page);
    RemainderIs(Spread(size, page), page, Pages(size, page), 0);
    SkipMultiple(start, Spread(size, page), page);
    AlignedIsMultiple(start + Spread(size, page), page);
  }

  lemma DivideTwice(n: nat, c: nat)
    requires 0 < c
    ensures n / 256 / c == n / (256 * c)
  {
    var q, r := n / 256 / c, n / 256 % c;
    assert n / 256 == q * c + r;
    assert n == q * (256 * c) + (256 * r + n % 256);
    RemainderIs(n, 256 * c, q, 256 * r + n % 256);
  }

  lemma CapacityPositive(width: nat)
    ensures 0 < Capacity(width)
  {
  }

  /** The lowest byte comes first: byte `i` is digit `i` to base 256. */
  lemma {:induction false} LittleEndianDigit(n: nat, width: nat, i: nat)
    requires i < width
    ensures 0 < Capacity(i) && LittleEndian(n, width)[i] == n / Capacity(i) % 256
  {
    CapacityPositive(i);
    if i == 0 {
    } else {
      LittleEndianDigit(n / 256, width - 1, i - 1);
      DivideTwice(n, Capacity(i - 1));
    }
  }

  // ---------- Fields ----------

  datatype Field = U32(v: int) | U64(v: int) | Text(s: seq<byte>, width: nat) | Raw(data: seq<byte>)

  /** The values the field's format can hold. */
  predicate Packed(f: Field) {
    match f
    case U32(v) => 0 <= v < 0x1_0000_0000
    case U64(v) => 0 <= v < 0x1_0000_0000_0000_0000
    case Text(_, _) => true
    case Raw(_) => true
  }

  predicate Fits32(v: int) {
    Packed(U32(v))
  }

  function Zeros(n: nat): (bytes: seq<byte>)
    ensures |bytes| == n && forall i :: 0 <= i < n ==> bytes[i] == 0
  {
    seq(n, _ => 0)
  }

  /** Cut or filled with zeros to `width` bytes. */
  function Fixed(s: seq<byte>, width: nat): (bytes: seq<byte>)
    ensures |bytes| == width && forall i :: 0 <= i < width ==> bytes[i] == if i < |s| then s[i] else 0
  {
    if |s| >= width then s[..width] else s + Zeros(width - |s|)
  }

  function Width(f: Field): nat {
    match f
    case U32(_) => 4
    case U64(_) => 8
    case Text(_, width) => width
    case Raw(data) => |data|
  }

  function EncodeField(f: Field): (bytes: seq<byte>)
    requires Packed(f)
    ensures |bytes| == Width(f)
  {
    match f
    case U32(v) => LittleEndian(v, 4)
    case U64(v) => LittleEndian(v, 8)
    case Text(s, width) => Fixed(s, width)
    case Raw(data) => data
  }

  type File = Option<seq<byte>>

  function FileBytes(f: File): seq<byte> {
    if f.None? then [] else f.value
  }

  function FileSize(f: File): (size: nat)
    ensures size == |FileBytes(f)| && (f.Some? ==> FileBytes(f) == f.value)
  {
    if f.None? then 0 else |f.value|
  }

  // ---------- Reading ----------

  function Sub(image: seq<byte>, at: nat, size: nat): seq<byte> {
    if at + size <= |image| then image[at..at + size] else []
  }

  function U32At(image: seq<byte>, at: nat): nat {
    FromLittleEndian(Sub(image, at, 4))
  }

  function U64At(image: seq<byte>, at: nat): nat {
    FromLittleEndian(Sub(image, at, 8))
  }

  ghost predicate FieldAt(image: seq<byte>, at: nat, f: Field) {
    Packed(f) && at + Width(f) <= |image| && Sub(image, at, Width(f)) == EncodeField(f)
  }

  lemma NumberReads(image: seq<byte>, at: nat, v: nat)
    ensures FieldAt(image, at, U32(v)) ==> U32At(image, at) == v
    ensures FieldAt(image, at, U64(v)) ==> U64At(image, at) == v
  {
    LittleEndianRoundTrip(v, 4);
    LittleEndianRoundTrip(v, 8);
    assert Capacity(2) == 0x1_0000;
    assert Capacity(4) == 0x1_0000_0000;
    assert Capacity(6) == 0x1_0000_0000_0000;
    assert Capacity(8) == 0x1_0000_0000_0000_0000;
  }

  // ---------- The file being written ----------

  datatype Placed = Placed(at: nat, f: Field)

  ghost predicate Readable(content: seq<byte>, placed: set<Placed>) {
    forall at, f {:trigger FieldAt(content, at, f)} :: Placed(at, f) in placed ==> FieldAt(content, at, f)
  }

  /** Writing more at the end leaves what was written readable. */
  lemma ReadableAfterWrite(content: seq<byte>, placed: set<Placed>, f: Field)
    requires Readable(content, placed) && Packed(f)
    ensures Readable(content + EncodeField(f), placed + {Placed(|content|, f)})
  {
    var longer := content + EncodeField(f);
    forall at, g | Placed(at, g) in placed + {Placed(|content|, f)} ensures FieldAt(longer, at, g) {
      if Placed(at, g) in placed {
        assert FieldAt(content, at, g);
      }
    }
  }

  lemma NumberIn(content: seq<byte>, placed: set<Placed>, at: nat, v: nat)
    requires Readable(content, placed)
    ensures Placed(at, U32(v)) in placed ==> U32At(content, at) == v
    ensures Placed(at, U64(v)) in placed ==> U64At(content, at) == v
  {
    NumberReads(content, at, v);
    assert Placed(at, U32(v)) in placed ==> FieldAt(content, at, U32(v));
    assert Placed(at, U64(v)) in placed ==> FieldAt(content, at, U64(v));
  }

  /** What a 32-bit number is. */
  ghost predicate Word(v: int) {
    0 <= v <= 0xFFFF_FFFF
  }

  lemma WordIn(content: seq<byte>, placed: set<Placed>, at: nat, v: int)
    requires Readable(content, placed) && Placed(at, U32(v)) in placed
    ensures Word(v) && U32At(content, at) == v
  {
    assert FieldAt(content, at, U32(v));
    NumberReads(content, at, v);
  }

  lemma LongIn(content: seq<byte>, placed: set<Placed>, at: nat, v: int)
    requires Readable(content, placed) && Placed(at, U64(v)) in placed
    ensures U64At(content, at) == v
  {
    assert FieldAt(content, at, U64(v));
    NumberReads(content, at, v);
  }

  lemma BytesIn(content: seq<byte>, placed: set<Placed>, at: nat, f: Field)
    requires Readable(content, placed) && Placed(at, f) in placed && (f.Text? || f.Raw?)
    ensures Sub(content, at, Width(f)) == if f.Text? then Fixed(f.s, f.width) else f.data
  {
    assert FieldAt(content, at, f);
  }

  /** Zeros from here to the next page. */
  ghost predicate PaddingIn(placed: set<Placed>, at: nat, page: nat)
    requires PageSize(page)
  {
    Placed(at, Raw(Zeros(Padding(at, page)))) in placed
  }

  /** The file's bytes, then zeros for the rest of its pages. */
  ghost predicate FileIn(placed: set<Placed>, at: nat, f: File, page: nat)
    requires PageSize(page)
  {
    f.Some? ==> Placed(at, Raw(f.value)) in placed && PaddingIn(placed, at + |f.value|, page)
  }

  lemma FileStaysIn(before: set<Placed>, after: set<Placed>, at: nat, f: File, page: nat)
    requires before <= after && PageSize(page) && FileIn(before, at, f, page)
    ensures FileIn(after, at, f, page)
  {
  }

  lemma FileReads(content: seq<byte>, placed: set<Placed>, at: nat, f: File, page: nat)
    requires Readable(content, placed) && PageSize(page) && FileIn(placed, at, f, page)
    ensures Sub(content, at, FileSize(f)) == FileBytes(f)
  {
    if f.Some? {
      assert FieldAt(content, at, Raw(f.value));
    }
  }

  class OutFile {
    var content: seq<byte>
    ghost var placed: set<Placed>     // every field written, with its position

    ghost predicate Valid()
      reads this
    {
      Readable(content, placed)
    }

    constructor ()
      ensures Valid() && content == [] && placed == {}
    {
      content, placed := [], {};
    }

    /** Packs and writes one field. */
    method Pack(f: Field) returns (outcome: Outcome)
      requires Valid()
      modifies this
      ensures Valid() && outcome == (if Packed(f) then Pass else Fail(StructError))
      ensures f.U32? ==> (outcome.Pass? <==> 0 <= f.v <= 0xFFFF_FFFF)
      ensures f.U64? ==> (outcome.Pass? <==> 0 <= f.v <= 0xFFFF_FFFF_FFFF_FFFF)
      ensures f.Text? || f.Raw? ==> outcome.Pass?
      ensures !Packed(f) ==> content == old(content) && placed == old(placed)
      ensures Packed(f) ==> |content| == |old(content)| + Width(f) && placed == old(placed) + {Placed(|old(content)|, f)}
    {
      if !Packed(f) {
        return Fail(StructError);
      }
      ReadableAfterWrite(content, placed, f);
      placed := placed + {Placed(|content|, f)};
      content := content + EncodeField(f);
      outcome := Pass;
    }

    method WriteText(s: seq<byte>, width: nat)
      requires Valid()
      modifies this
      ensures Valid() && |content| == |old(content)| + width
      ensures placed == old(placed) + {Placed(|old(content)|, Text(s, width))}
    {
      var _ := Pack(Text(s, width));
    }

    method Write(data: seq<byte>)
      requires Valid()
      modifies this
      ensures Valid() && |content| == |old(content)| + |data|
      ensures placed == old(placed) + {Placed(|old(content)|, Raw(data))}
    {
      var _ := Pack(Raw(data));
    }

    method PadFile(page: nat)
      requires Valid() && PageSize(page)
      modifies this
      ensures Valid() && |content| == |old(content)| + Padding(|old(content)|, page)
      ensures placed == old(placed) + {Placed(|old(content)|, Raw(Zeros(Padding(|old(content)|, page))))}
    {
      Write(Zeros(Padding(|content|, page)));
    }

    /** Writes a whole file, then zeros up to a page; nothing for an absent file. */
    method WritePaddedFile(f: File, page: nat)
      requires Valid() && PageSize(page)
      modifies this
      ensures Valid() && old(placed) <= placed && FileIn(placed, |old(content)|, f, page)
      ensures Aligned(|old(content)|, page) ==>
                |content| == |old(content)| + Spread(FileSize(f), page) && Aligned(|content|, page)
    {
      if Aligned(|content|, page) {
        PaddingMeetsPages(|content|, FileSize(f), page);
      }
      if f.Some? {
        Write(f.value);
        PadFile(page);
      }
    }
  }
}
