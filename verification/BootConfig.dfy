/** The configuration text the signer binds to the stub, and the parser at the start of the stub's `main`. */
module BootConfig {
  import opened Bytes
  import opened Text
  import opened Unicode

  const NO_DIGEST := [0, 0, 0, 0, 0, 0, 0, 0, 0, 0, 0, 0, 0, 0, 0, 0, 0, 0, 0, 0, 0, 0, 0, 0, 0, 0, 0, 0, 0, 0, 0, 0]
  type Digest = s: seq<byte> | |s| == 32 witness NO_DIGEST
  /** SHA-256 is a parameter: every result holds for every function to 32 bytes. */
  type Sha = seq<byte> -> Digest

  const MAGIC: seq<byte> := [85, 75, 73] // "UKI"
  const SPACE: byte := 32
  const MAX_I32: int := 0x7FFF_FFFF
  const CMDLINE_UNITS: nat := 256

  datatype Config = Config(
    kernelLength: int,
    kernelSha: seq<byte>,
    initrdLength: nat,
    initrdSha: seq<byte>,
    cmdline: seq<byte>)

  datatype Parsed =
    | Unbound               // no "UKI": the stub was not bound to a configuration
    | BadParameter          // a number or the command line does not decode
    | Trap                  // a missing line, or a command line too long for the UTF-16 buffer
    | Bound(config: Config)

  /** `section` is the memory at the configuration address; the text ends at its first NUL. */
  function Parse(section: seq<byte>): Parsed {
    var text := Until(section, NUL);
    if !(MAGIC <= text) then Unbound
    else ParseLines(Lines(text))
  }

  /** A section is bound exactly when it starts with the three characters. */
  lemma UnboundExactly(section: seq<byte>)
    ensures Parse(section) == Unbound <==> !(|section| >= 3 && Chars(section[..3]) == "UKI")
  {
    var text := Until(section, NUL);
    if |section| >= 3 && Chars(section[..3]) == "UKI" {
      assert Chars(section[..3])[0] == 'U' && Chars(section[..3])[1] == 'K' && Chars(section[..3])[2] == 'I';
      assert section[0] == 85 && section[1] == 75 && section[2] == 73;
      assert text == [85] + Until(section[1..], NUL);
      assert Until(section[1..], NUL) == [75] + Until(section[1..][1..], NUL);
      assert Until(section[1..][1..], NUL) == [73] + Until(section[1..][1..][1..], NUL);
      assert MAGIC <= text;
    }
    if MAGIC <= text {
      assert section[..3] == MAGIC;
      assert Chars(MAGIC) == "UKI";
    }
    LinesAreNotUnbound(Lines(text));
  }

  lemma LinesAreNotUnbound(lines: seq<seq<byte>>)
    ensures ParseLines(lines) != Unbound
  {
  }

  function ParseLines(lines: seq<seq<byte>>): Parsed {
    if |lines| < 2 then Trap
    else match ParseInt(lines[1], -0x8000_0000, MAX_I32)
      case None => BadParameter
      case Some(kernelLength) =>
        if |lines| < 4 then Trap
        else match ParseInt(lines[3], 0, TWO_64 - 1)
          case None => BadParameter
          case Some(initrdLength) =>
            if |lines| < 6 then Trap
            else match UnitCount(lines[5])
              case None => BadParameter
              case Some(units) =>
                if units > CMDLINE_UNITS then Trap
                else Bound(Config(kernelLength, lines[2], initrdLength, lines[4], lines[5]))
  }

  // ----- the signer -----

  function Ascii(s: string): (b: seq<byte>)
    ensures |b| == |s|
  {
    seq(|s|, i requires 0 <= i < |s| => if s[i] as int < 0x80 then s[i] as int else 63)
  }

  const FIXED_OPTIONS: string := " console=tty1" + " loglevel=6" + " net.ifnames=0" + " panic=5 "

  /** The command line `efi` binds: the fixed options around the public key, then the caller's. */
  function CommandLine(pubKey: seq<byte>, extra: seq<byte>): (c: seq<byte>)
    ensures |c| > |pubKey| + |extra|
  {
    Ascii("pub_key=") + pubKey + Ascii(FIXED_OPTIONS) + [SPACE] + extra
  }

  function InitrdBytes(initrd: Option<seq<byte>>): seq<byte> {
    match initrd case None => [] case Some(b) => b
  }

  /** The digest line of the initrd; a missing initrd has the line "0". */
  function InitrdSha(sha: Sha, initrd: Option<seq<byte>>): (s: seq<byte>)
    ensures Free(s, LF) && Free(s, NUL)
  {
    match initrd case None => [ZERO] case Some(b) => Hex(sha(b))
  }

  /** The five lines before the command line. */
  function HeadLines(sha: Sha, kernel: seq<byte>, initrd: Option<seq<byte>>): (ls: seq<seq<byte>>)
    ensures |ls| == 5
    ensures forall i :: 0 <= i < |ls| ==> Free(ls[i], LF) && Free(ls[i], NUL)
  {
    [MAGIC, Decimal(|kernel|), Hex(sha(kernel)), Decimal(|InitrdBytes(initrd)|), InitrdSha(sha, initrd)]
  }

  function Signed(sha: Sha, kernel: seq<byte>, initrd: Option<seq<byte>>, cmdline: seq<byte>): seq<byte> {
    Joined(HeadLines(sha, kernel, initrd)) + cmdline + [LF, LF]
  }

  /** The options of the shell function, in characters. */
  function Options(pubKey: seq<byte>, extra: seq<byte>): string {
    "pub_key=" + Chars(pubKey) + (" console=tty1" + " loglevel=6" + " net.ifnames=0" + " panic=5 ") + " " + Chars(extra)
  }

  /** The lines that the commands of the shell function print, in characters. */
  function Printed(sha: Sha, kernel: seq<byte>, initrd: Option<seq<byte>>, options: string): seq<string> {
    ["UKI", Chars(Decimal(|kernel|)), Chars(Hex(sha(kernel)))]
    + (match initrd case None => ["0", "0"] case Some(image) => [Chars(Decimal(|image|)), Chars(Hex(sha(image)))])
    + [options, ""]
  }

  function Unlines(lines: seq<string>): string {
    if |lines| == 0 then "" else lines[0] + "\n" + Unlines(lines[1..])
  }

  function TextOf(lines: seq<seq<byte>>): (ts: seq<string>)
    ensures |ts| == |lines|
  {
    seq(|lines|, i requires 0 <= i < |lines| => Chars(lines[i]))
  }

  /** The shell function `efi`, as far as it writes the file `/tmp/ukicfg`. */
  class Signer {
    var ukicfg: seq<byte>

    constructor ()
      ensures ukicfg == []
    {
      ukicfg := [];
    }

    /** `echo` with the output appended; `lines` is what the file holds so far. */
    method Append(line: seq<byte>, ghost lines: seq<seq<byte>>)
      requires ukicfg == Joined(lines)
      modifies this
      ensures ukicfg == Joined(lines + [line]) == old(ukicfg) + (line + [LF])
    {
      ukicfg := ukicfg + (line + [LF]);
      JoinedSnoc(lines, line);
    }

    method AppendTwo(first: seq<byte>, second: seq<byte>, ghost lines: seq<seq<byte>>)
      requires ukicfg == Joined(lines)
      modifies this
      ensures ukicfg == Joined(lines + [first, second])
    {
      Append(first, lines);
      Append(second, lines + [first]);
      assert lines + [first] + [second] == lines + [first, second];
    }

    method Efi(sha: Sha, kernel: seq<byte>, initrd: Option<seq<byte>>, pubKey: seq<byte>, extra: seq<byte>)
      modifies this
      ensures ukicfg == Signed(sha, kernel, initrd, CommandLine(pubKey, extra))
      ensures Chars(ukicfg) == Unlines(Printed(sha, kernel, initrd, Options(pubKey, extra)))
    {
      ukicfg := MAGIC + [LF];
      assert ukicfg == Joined([MAGIC]) by { assert Joined([]) == []; }
      var length, digest := Decimal(|kernel|), Hex(sha(kernel));
      Append(length, [MAGIC]);
      assert [MAGIC] + [length] == [MAGIC, length];
      Append(digest, [MAGIC, length]);
      assert [MAGIC, length] + [digest] == [MAGIC, length, digest];
      match initrd {
        case Some(image) =>
          AppendTwo(Decimal(|image|), Hex(sha(image)), [MAGIC, length, digest]);
        case None =>
          AppendTwo([ZERO], [ZERO], [MAGIC, length, digest]);
          assert Decimal(0) == [ZERO];
      }
      assert [MAGIC, length, digest] + [Decimal(|InitrdBytes(initrd)|), InitrdSha(sha, initrd)]
          == HeadLines(sha, kernel, initrd);
      var cmdline := CommandLine(pubKey, extra);
      Append(cmdline, HeadLines(sha, kernel, initrd));
      Append([], HeadLines(sha, kernel, initrd) + [cmdline]);
      TwoEnds(Joined(HeadLines(sha, kernel, initrd)), cmdline);
      CommandLineText(pubKey, extra);
      SignedInChars(sha, kernel, initrd, cmdline);
    }
  }

  lemma TwoEnds(head: seq<byte>, cmdline: seq<byte>)
    ensures head + (cmdline + [LF]) + ([] + [LF]) == head + cmdline + [LF, LF]
  {
  }

  predicate AllAscii(s: string) {
    forall i :: 0 <= i < |s| ==> s[i] as int < 0x80
  }

  lemma AsciiInChars(s: string)
    requires AllAscii(s)
    ensures Chars(Ascii(s)) == s
  {
  }

  /** The command line in characters. */
  lemma CommandLineText(pubKey: seq<byte>, extra: seq<byte>)
    ensures Chars(CommandLine(pubKey, extra)) == Options(pubKey, extra)
  {
    var front, options := Ascii("pub_key="), Ascii(FIXED_OPTIONS);
    AsciiInChars("pub_key=");
    assert AllAscii(" console=tty1") && AllAscii(" loglevel=6") && AllAscii(" net.ifnames=0") && AllAscii(" panic=5 ");
    AsciiInChars(FIXED_OPTIONS);
    CharsConcat(front, pubKey);
    CharsConcat(front + pubKey, options);
    CharsConcat(front + pubKey + options, [SPACE]);
    CharsConcat(front + pubKey + options + [SPACE], extra);
    assert Chars([SPACE]) == " ";
  }

  lemma {:induction false} CharsOfJoined(ls: seq<seq<byte>>)
    ensures Chars(Joined(ls)) == Unlines(TextOf(ls))
  {
    if |ls| > 0 {
      CharsOfJoined(ls[1..]);
      CharsConcat(ls[0] + [LF], Joined(ls[1..]));
      CharsConcat(ls[0], [LF]);
      assert Chars([LF]) == "\n";
      assert TextOf(ls)[1..] == TextOf(ls[1..]);
    }
  }

  /** The whole file in characters, for any command line. */
  lemma SignedInChars(sha: Sha, kernel: seq<byte>, initrd: Option<seq<byte>>, cmdline: seq<byte>)
    ensures Chars(Signed(sha, kernel, initrd, cmdline)) == Unlines(Printed(sha, kernel, initrd, Chars(cmdline)))
  {
    var head := HeadLines(sha, kernel, initrd);
    JoinedSnoc(head, cmdline);
    JoinedSnoc(head + [cmdline], []);
    TwoEnds(Joined(head), cmdline);
    CharsOfJoined(head + [cmdline] + [[]]);
    LinesInChars(sha, kernel, initrd, cmdline);
  }

  lemma LinesInChars(sha: Sha, kernel: seq<byte>, initrd: Option<seq<byte>>, cmdline: seq<byte>)
    ensures TextOf(HeadLines(sha, kernel, initrd) + [cmdline] + [[]]) == Printed(sha, kernel, initrd, Chars(cmdline))
  {
    assert Chars(MAGIC) == "UKI" && Chars([]) == "";
    assert Decimal(0) == [ZERO] && Chars([ZERO]) == "0";
  }

  // ----- signer and stub agree -----

  /** The five fields the signer means the stub to recover. */
  function Intended(sha: Sha, kernel: seq<byte>, initrd: Option<seq<byte>>, cmdline: seq<byte>): Config {
    Config(|kernel|, Hex(sha(kernel)), |InitrdBytes(initrd)|, InitrdSha(sha, initrd), cmdline)
  }

  /** What a caller of the signer can check before signing: the command line is UTF-8 of at most 256 UTF-16 units. */
  ghost predicate Signable(kernel: seq<byte>, initrd: Option<seq<byte>>, cmdline: seq<byte>) {
    && |kernel| < 0x8000_0000
    && |InitrdBytes(initrd)| < 0x1_0000_0000_0000_0000
    && 10 !in cmdline && 0 !in cmdline
    && FitsUnits(cmdline, 256)
  }

  lemma {:induction false} UntilInside(a: seq<byte>, c: byte, b: seq<byte>)
    requires !Free(a, c)
    ensures Until(a + b, c) == Until(a, c)
  {
    if a[0] != c {
      assert (a + b)[1..] == a[1..] + b;
      assert !Free(a[1..], c) by {
        var i :| 0 <= i < |a| && a[i] == c;
        assert a[1..][i - 1] == c;
      }
      UntilInside(a[1..], c, b);
    }
  }

  /** The text the stub reads: the five lines, then the command line up to a NUL. */
  lemma SignedText(sha: Sha, kernel: seq<byte>, initrd: Option<seq<byte>>, cmdline: seq<byte>, padding: seq<byte>)
    ensures Until(Signed(sha, kernel, initrd, cmdline) + [NUL] + padding, NUL)
         == Joined(HeadLines(sha, kernel, initrd))
            + if Free(cmdline, NUL) then cmdline + [LF, LF] else Until(cmdline, NUL)
  {
    var head := Joined(HeadLines(sha, kernel, initrd));
    var after := [LF, LF] + [NUL] + padding;
    JoinedFree(HeadLines(sha, kernel, initrd), NUL);
    assert Signed(sha, kernel, initrd, cmdline) + [NUL] + padding == head + (cmdline + after);
    UntilFree(head, NUL, cmdline + after);
    if Free(cmdline, NUL) {
      assert cmdline + after == (cmdline + [LF, LF]) + [NUL] + padding;
      UntilStop(cmdline + [LF, LF], NUL, padding);
    } else {
      UntilInside(cmdline, NUL, after);
    }
  }

  /** The command line that comes back is the one bound, cut at its first NUL or line feed. */
  lemma TailLine(cmdline: seq<byte>)
    ensures var tail := if Free(cmdline, NUL) then cmdline + [LF, LF] else Until(cmdline, NUL);
            Lines(tail)[0] == Until(Until(cmdline, NUL), LF)
  {
    UntilWhole(cmdline, NUL);
    if Free(cmdline, NUL) {
      assert cmdline + [LF, LF] == cmdline + [LF] + [LF];
      if Free(cmdline, LF) {
        UntilStop(cmdline, LF, [LF]);
        UntilWhole(cmdline, LF);
      } else {
        UntilInside(cmdline, LF, [LF, LF]);
      }
    }
  }

  lemma {:induction false} UntilWhole(a: seq<byte>, c: byte)
    ensures Until(a, c) == a <==> Free(a, c)
  {
    if |a| > 0 && a[0] != c {
      UntilWhole(a[1..], c);
      assert a == [a[0]] + a[1..];
      assert Free(a, c) <==> Free(a[1..], c) by {
        assert forall i :: 0 < i < |a| ==> a[i] == a[1..][i - 1];
      }
    }
  }

  /** The command line survives being read as a C string and as a line exactly when it has no NUL and no line feed. */
  lemma CmdlineSurvives(cmdline: seq<byte>)
    ensures Until(Until(cmdline, NUL), LF) == cmdline <==> Free(cmdline, LF) && Free(cmdline, NUL)
  {
    UntilWhole(cmdline, NUL);
    UntilWhole(Until(cmdline, NUL), LF);
    if !Free(cmdline, NUL) {
      assert |Until(cmdline, NUL)| < |cmdline|;
    }
  }

  /** The stub recovers what the signer meant exactly for the inputs the formats can carry. */
  lemma SignerAndStubAgree(sha: Sha, kernel: seq<byte>, initrd: Option<seq<byte>>, cmdline: seq<byte>, padding: seq<byte>)
    ensures Parse(Signed(sha, kernel, initrd, cmdline) + [NUL] + padding) == Bound(Intended(sha, kernel, initrd, cmdline))
       <==> Signable(kernel, initrd, cmdline)
  {
    SignedLines(sha, kernel, initrd, cmdline, padding);
    var lines := Lines(Until(Signed(sha, kernel, initrd, cmdline) + [NUL] + padding, NUL));
    CmdlineSurvives(cmdline);
    ParsePrinted(|kernel|, -0x8000_0000, MAX_I32);
    ParsePrinted(|InitrdBytes(initrd)|, 0, TWO_64 - 1);
    AgreeOnLines(sha, kernel, initrd, cmdline, lines);
  }

  /** The lines the stub reads: the five lines as bound, then the command line as far as it survives. */
  lemma SignedLines(sha: Sha, kernel: seq<byte>, initrd: Option<seq<byte>>, cmdline: seq<byte>, padding: seq<byte>)
    ensures var text := Until(Signed(sha, kernel, initrd, cmdline) + [NUL] + padding, NUL);
            && MAGIC <= text && |Lines(text)| >= 6
            && Lines(text)[1] == Decimal(|kernel|) && Lines(text)[2] == Hex(sha(kernel))
            && Lines(text)[3] == Decimal(|InitrdBytes(initrd)|) && Lines(text)[4] == InitrdSha(sha, initrd)
            && Lines(text)[5] == Until(Until(cmdline, NUL), LF)
  {
    var head := HeadLines(sha, kernel, initrd);
    var tail := if Free(cmdline, NUL) then cmdline + [LF, LF] else Until(cmdline, NUL);
    SignedText(sha, kernel, initrd, cmdline, padding);
    HeadThenTail(head, tail);
    TailLine(cmdline);
  }

  lemma HeadThenTail(head: seq<seq<byte>>, tail: seq<byte>)
    requires |head| == 5 && head[0] == MAGIC
    requires forall i :: 0 <= i < |head| ==> Free(head[i], LF)
    ensures var text := Joined(head) + tail;
            && MAGIC <= text && |Lines(text)| >= 6
            && (forall i :: 0 <= i < 5 ==> Lines(text)[i] == head[i]) && Lines(text)[5] == Lines(tail)[0]
  {
    MagicFirst(head, tail);
    LinesOfJoined(head, tail);
    Sixth(head, Lines(tail));
  }

  lemma Sixth(head: seq<seq<byte>>, rest: seq<seq<byte>>)
    requires |head| == 5 && |rest| > 0
    ensures (head + rest)[5] == rest[0] && forall i :: 0 <= i < 5 ==> (head + rest)[i] == head[i]
  {
  }

  lemma MagicFirst(lines: seq<seq<byte>>, tail: seq<byte>)
    requires |lines| > 0 && lines[0] == MAGIC
    ensures MAGIC <= Joined(lines) + tail
  {
  }

  lemma AgreeOnLines(sha: Sha, kernel: seq<byte>, initrd: Option<seq<byte>>, cmdline: seq<byte>, lines: seq<seq<byte>>)
    requires |lines| >= 6 && lines[1] == Decimal(|kernel|) && lines[2] == Hex(sha(kernel))
    requires lines[3] == Decimal(|InitrdBytes(initrd)|) && lines[4] == InitrdSha(sha, initrd)
    requires lines[5] == cmdline <==> Free(cmdline, LF) && Free(cmdline, NUL)
    requires ParseInt(Decimal(|kernel|), -0x8000_0000, MAX_I32)
          == if |kernel| <= MAX_I32 then Some(|kernel|) else None
    requires ParseInt(Decimal(|InitrdBytes(initrd)|), 0, TWO_64 - 1)
          == if |InitrdBytes(initrd)| <= TWO_64 - 1 then Some(|InitrdBytes(initrd)|) else None
    ensures ParseLines(lines) == Bound(Intended(sha, kernel, initrd, cmdline)) <==> Signable(kernel, initrd, cmdline)
  {
    BoundLines(lines, Intended(sha, kernel, initrd, cmdline));
    UnitCountExact(cmdline, CMDLINE_UNITS);
    FreeIsAbsent(cmdline, LF);
    FreeIsAbsent(cmdline, NUL);
  }

  lemma BoundLines(lines: seq<seq<byte>>, c: Config)
    requires |lines| >= 6
    ensures ParseLines(lines) == Bound(c) <==>
      && ParseInt(lines[1], -0x8000_0000, MAX_I32) == Some(c.kernelLength) && lines[2] == c.kernelSha
      && ParseInt(lines[3], 0, TWO_64 - 1) == Some(c.initrdLength) && lines[4] == c.initrdSha
      && lines[5] == c.cmdline && UnitCount(c.cmdline).Some? && UnitCount(c.cmdline).value <= CMDLINE_UNITS
  {
  }

  lemma FreeIsAbsent(s: seq<byte>, c: byte)
    ensures Free(s, c) <==> c !in s
  {
  }
}
