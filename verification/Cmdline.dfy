/**
 The kernel command line of the image writer: encoded with a terminating zero and, below header version 3, split over
 two fixed fields that are each terminated again.
 */
module Cmdline {
  import opened Common
  import opened BootBytes

  const BOOT_ARGS_SIZE: nat := 512
  const BOOT_EXTRA_ARGS_SIZE: nat := 1024

  /** The argument with a terminating zero; `None` when that exceeds the buffer. */
  function AsciizBytes(arg: seq<byte>, bufsize: nat): (text: Option<seq<byte>>)
    ensures text.Some? <==> |arg| < bufsize
    ensures text.Some? ==> |text.value| == |arg| + 1 && text.value[..|arg|] == arg && text.value[|arg|] == 0
  {
    if |arg| + 1 > bufsize then None else Some(arg + [0])
  }

  function CmdlineSize(headerVersion: int): (size: nat)
    ensures size == if headerVersion < 3 then 1535 else 1536
  {
    BOOT_ARGS_SIZE + BOOT_EXTRA_ARGS_SIZE - if headerVersion < 3 then 1 else 0
  }

  /** The first 511 bytes, terminated. */
  function FirstPart(cmdline: seq<byte>): (part: seq<byte>)
    ensures |part| == (if |cmdline| < 511 then |cmdline| else 511) + 1 && part[|part| - 1] == 0
    ensures forall i :: 0 <= i < |part| - 1 ==> part[i] == cmdline[i]
  {
    (if |cmdline| < BOOT_ARGS_SIZE - 1 then cmdline else cmdline[..BOOT_ARGS_SIZE - 1]) + [0]
  }

  /** Whatever follows them. */
  function ExtraPart(cmdline: seq<byte>): (part: seq<byte>)
    ensures |part| == if |cmdline| < 511 then 0 else |cmdline| - 511
    ensures forall i :: 0 <= i < |part| ==> part[i] == cmdline[511 + i]
  {
    if |cmdline| < BOOT_ARGS_SIZE - 1 then [] else cmdline[BOOT_ARGS_SIZE - 1..]
  }

  /** What a loader reads from a field: the bytes before the first zero. */
  function UpToNul(field: seq<byte>, from: nat := 0): (text: seq<byte>)
    requires from <= |field|
    ensures |text| <= |field| - from && text == field[from..from + |text|]
    ensures 0 !in text && (from + |text| < |field| ==> field[from + |text|] == 0)
    decreases |field| - from
  {
    if from == |field| || field[from] == 0 then [] else [field[from]] + UpToNul(field, from + 1)
  }

  /** A field starting with zero-free text and a zero reads as that text. */
  lemma ReadsText(field: seq<byte>, text: seq<byte>)
    requires |text| < |field| && field[..|text|] == text && 0 !in text && field[|text|] == 0
    ensures UpToNul(field) == text
  {
  }

  ghost predicate Terminated(field: seq<byte>) {
    0 in field
  }

  /** Below version 3, whatever `AsciizBytes` accepts fits both fields with a zero left in each, and only that. */
  lemma SplitFitsIff(arg: seq<byte>)
    ensures AsciizBytes(arg, CmdlineSize(0)).Some? <==> |arg| < 1535
    ensures AsciizBytes(arg, CmdlineSize(0)).Some? <==>
            |FirstPart(arg + [0])| <= BOOT_ARGS_SIZE && |ExtraPart(arg + [0])| <= BOOT_EXTRA_ARGS_SIZE
    ensures AsciizBytes(arg, CmdlineSize(0)).Some? ==>
            && Terminated(Fixed(FirstPart(arg + [0]), BOOT_ARGS_SIZE))
            && Terminated(Fixed(ExtraPart(arg + [0]), BOOT_EXTRA_ARGS_SIZE))
  {
    var a, b := Fixed(FirstPart(arg + [0]), BOOT_ARGS_SIZE), Fixed(ExtraPart(arg + [0]), BOOT_EXTRA_ARGS_SIZE);
    if AsciizBytes(arg, CmdlineSize(0)).Some? {
      var n := |FirstPart(arg + [0])| - 1;
      assert a[n] == 0;
      if |arg| + 1 < BOOT_ARGS_SIZE {
        assert b[0] == 0;
      } else {
        assert b[|arg| + 1 - BOOT_ARGS_SIZE] == 0;
      }
    }
  }

  /** The first field reads as the argument's front. */
  lemma FirstReads(arg: seq<byte>, n: nat)
    requires 0 !in arg && n == if |arg| < BOOT_ARGS_SIZE - 1 then |arg| else BOOT_ARGS_SIZE - 1
    ensures UpToNul(Fixed(FirstPart(arg + [0]), BOOT_ARGS_SIZE)) == arg[..n]
  {
    var cmdline, field := arg + [0], Fixed(FirstPart(arg + [0]), BOOT_ARGS_SIZE);
    assert cmdline[..n] == arg[..n];
    assert field[..n] == arg[..n] && field[n] == 0;
    ReadsText(field, arg[..n]);
  }

  /** The second reads as the rest. */
  lemma ExtraReads(arg: seq<byte>, n: nat)
    requires 0 !in arg && n == if |arg| < BOOT_ARGS_SIZE - 1 then |arg| else BOOT_ARGS_SIZE - 1
    requires AsciizBytes(arg, CmdlineSize(0)).Some?
    ensures UpToNul(Fixed(ExtraPart(arg + [0]), BOOT_EXTRA_ARGS_SIZE)) == arg[n..]
  {
    var cmdline, field := arg + [0], Fixed(ExtraPart(arg + [0]), BOOT_EXTRA_ARGS_SIZE);
    var m := |arg| - n;
    if n == BOOT_ARGS_SIZE - 1 {
      assert cmdline[n..] == arg[n..] + [0];
    }
    assert field[..m] == arg[n..] && field[m] == 0;
    ReadsText(field, arg[n..]);
  }

  lemma ZeroFreeJoin(x: seq<byte>, y: seq<byte>)
    requires 0 !in x && 0 !in y
    ensures 0 !in x + y
  {
  }

  /** What a loader joins from the two fields of an argument. */
  function Joined(arg: seq<byte>): (text: seq<byte>)
    ensures 0 !in text
  {
    var first, extra := UpToNul(Fixed(FirstPart(arg + [0]), BOOT_ARGS_SIZE)),
                        UpToNul(Fixed(ExtraPart(arg + [0]), BOOT_EXTRA_ARGS_SIZE));
    ZeroFreeJoin(first, extra);
    first + extra
  }

  lemma ZeroFreeReads(arg: seq<byte>)
    requires AsciizBytes(arg, CmdlineSize(0)).Some? && 0 !in arg
    ensures Joined(arg) == arg
  {
    var n := if |arg| < BOOT_ARGS_SIZE - 1 then |arg| else BOOT_ARGS_SIZE - 1;
    var front, rest := arg[..n], arg[n..];
    FirstReads(arg, n);
    ExtraReads(arg, n);
    assert front + rest == arg;
  }

  /** Reading both fields and joining them gives the argument back, exactly when it holds no zero itself. */
  lemma SplitRoundTrip(arg: seq<byte>)
    requires AsciizBytes(arg, CmdlineSize(0)).Some?
    ensures Joined(arg) == arg <==> 0 !in arg
  {
    if 0 !in arg {
      ZeroFreeReads(arg);
    }
  }

  /** From version 3 on one field takes the whole argument, and gives it back under the same condition. */
  lemma WholeRoundTrip(arg: seq<byte>)
    requires AsciizBytes(arg, CmdlineSize(3)).Some?
    ensures UpToNul(Fixed(arg + [0], BOOT_ARGS_SIZE + BOOT_EXTRA_ARGS_SIZE)) == arg <==> 0 !in arg
  {
    var field := Fixed(arg + [0], BOOT_ARGS_SIZE + BOOT_EXTRA_ARGS_SIZE);
    if 0 !in arg {
      ReadsText(field, arg);
    }
  }
}
