/**
 * The armor text: the encoder's line list with the base64 body wrapped at
 * 76 characters (plugin/path_payload.go) and the decoder's line scanner
 * with its stages `looking`, `started` and `rsa` (test/decrypt.go).
 */
module Armor {
  import opened Common
  import opened Strings
  import opened Framing

  const BeginLine: string := "-----BEGIN E2E ENCRYPTED PAYLOAD-----"
  const VersionLine: string := "PAYLOAD_VERSION: 2.0"
  const EndLine: string := "-----END E2E ENCRYPTED PAYLOAD-----"
  /** The prefix that makes the scanner skip a body line. */
  const Dashes: string := "-----"
  /** The width of the wrapped base64 lines. */
  const LineWidth: nat := 76

  /** The characters of standard base64 (section 4 of RFC 4648), padding included. */
  predicate IsBase64Char(c: char)
  {
    'A' <= c <= 'Z' || 'a' <= c <= 'z' || '0' <= c <= '9' || c == '+' || c == '/' || c == '='
  }

  predicate IsBase64Text(s: string)
  {
    forall i :: 0 <= i < |s| ==> IsBase64Char(s[i])
  }

  /** `s` cut into consecutive pieces of `size` characters, the last one possibly shorter. */
  function Chunks(s: string, size: nat): (r: seq<string>)
    requires size > 0
    ensures Flatten(r) == s
    ensures forall i :: 0 <= i < |r| ==> 0 < |r[i]| <= size
    ensures forall i :: 0 <= i < |r| - 1 ==> |r[i]| == size
    ensures r == [] <==> s == []
    decreases |s|
  {
    if s == [] then []
    else if |s| <= size then [s]
    else
      var rest := Chunks(s[size..], size);
      assert s == s[..size] + s[size..];
      [s[..size]] + rest
  }

  /** The properties `Chunks` promises determine its result: no other list of pieces has them. */
  lemma {:induction false} ChunksUnique(s: string, size: nat, ss: seq<string>)
    requires size > 0
    requires Flatten(ss) == s
    requires forall i :: 0 <= i < |ss| ==> 0 < |ss[i]| <= size
    requires forall i :: 0 <= i < |ss| - 1 ==> |ss[i]| == size
    ensures ss == Chunks(s, size)
    decreases |ss|
  {
    if ss != [] {
      if |ss| == 1 {
        assert s == ss[0];
      } else {
        var tail := Flatten(ss[1..]);
        assert s == ss[0] + tail;
        assert |ss[1]| > 0 && ss[1..][0] == ss[1];
        assert ss[1..] == [ss[1]] + ss[2..];
        assert tail == ss[1] + Flatten(ss[2..]);
        assert s[..size] == ss[0] && s[size..] == tail;
        ChunksUnique(tail, size, ss[1..]);
      }
    }
  }

  /**
   * `splitB64` (path_payload.go:295-304): cuts `s` into lines of `size`
   * characters, shortening `size` to what is left for the last line.
   */
  method SplitB64(s: string, size: int) returns (ss: seq<string>)
    requires size > 0
    ensures Flatten(ss) == s
    ensures forall i :: 0 <= i < |ss| ==> 0 < |ss[i]| <= size
    ensures forall i :: 0 <= i < |ss| - 1 ==> |ss[i]| == size
    ensures ss == [] <==> s == []
    ensures ss == Chunks(s, size)
  {
    var rest := s;
    var width := size;
    ss := [];
    while |rest| > 0
      invariant rest != [] ==> width == size
      invariant 0 < width
      invariant ss + Chunks(rest, size) == Chunks(s, size)
      decreases |rest|
    {
      if |rest| < width {
        width := |rest|;
      }
      ChunksStep(rest, size, width);
      ghost var done := ss;
      ss, rest := ss + [rest[..width]], rest[width..];
      SeqAssoc(done, [ss[|ss| - 1]], Chunks(rest, size));
    }
    assert ss + [] == ss;
  }

  /** One step of `Chunks`: the first piece is `width` long, all of `s` when it is short. */
  lemma ChunksStep(s: string, size: nat, width: nat)
    requires 0 < width <= size && s != []
    requires width == size || width == |s|
    requires width <= |s|
    ensures Chunks(s, size) == [s[..width]] + Chunks(s[width..], size)
  {
    if |s| <= size {
      assert s[..width] == s && s[width..] == [];
    }
  }

  lemma SeqAssoc<T>(a: seq<T>, b: seq<T>, c: seq<T>)
    ensures (a + b) + c == a + (b + c)
  {
  }

  /** The armor lines the encoder emits around a base64 body (path_payload.go:176-192). */
  function ArmorLines(b64: string): (r: seq<string>)
    ensures |r| >= 4 && r[..3] == [BeginLine, VersionLine, ""] && r[|r| - 1] == EndLine
    ensures Flatten(r[3..|r| - 1]) == b64
    ensures forall i :: 3 <= i < |r| - 1 ==> 0 < |r[i]| <= LineWidth
    ensures forall i :: 3 <= i < |r| - 2 ==> |r[i]| == LineWidth
  {
    var body := Chunks(b64, LineWidth);
    var r := [BeginLine, VersionLine, ""] + body + [EndLine];
    assert r[3..|r| - 1] == body;
    r
  }

  /** The scanner's stages (decrypt.go:41-67). */
  const Looking: string := "looking"
  const Started: string := "started"
  const Rsa: string := "rsa"

  predicate IsStage(stage: string)
  {
    stage == Looking || stage == Started || stage == Rsa
  }

  /** The position of a stage in `looking -> started -> rsa`. */
  function StageRank(stage: string): nat
    requires IsStage(stage)
  {
    if stage == Looking then 0 else if stage == Started then 1 else 2
  }

  /**
   * The stage after reading `line`: a BEGIN line starts the header and an
   * empty line ends it; the scanner only moves forward, one stage at a time.
   */
  function NextStage(stage: string, line: string): (next: string)
    requires IsStage(stage)
    ensures IsStage(next)
    ensures StageRank(stage) <= StageRank(next) <= StageRank(stage) + 1
    ensures next != stage <==> (stage == Looking && BeginLine <= line) || (stage == Started && line == [])
  {
    if stage == Looking && BeginLine <= line then Started
    else if stage == Started && line == [] then Rsa
    else stage
  }

  /** What reading `line` adds to the base64 text: a body line that does not start with `-----`. */
  function Appended(stage: string, line: string): (a: string)
    requires IsStage(stage)
    ensures a != [] ==> stage == Rsa && a == line && !(Dashes <= line)
  {
    if stage == Rsa && !(Dashes <= line) then Trim(line, []) else []
  }

  /**
   * The base64 text collected from `lines` when the scan starts in `stage`:
   * never longer than the lines together, and in the body stage exactly the
   * kept lines one after another, END lines included among the skipped ones.
   */
  function ScanFrom(stage: string, lines: seq<string>): (r: string)
    requires IsStage(stage)
    ensures |r| <= |Flatten(lines)|
    ensures stage == Rsa ==> r == Flatten(Kept(lines))
    decreases |lines|
  {
    if lines == [] then []
    else
      BodyStays(lines[0]);
      var r := Appended(stage, lines[0]) + ScanFrom(NextStage(stage, lines[0]), lines[1..]);
      assert !(Dashes <= lines[0]) ==> ([lines[0]] + Kept(lines[1..]))[1..] == Kept(lines[1..]);
      r
  }

  /** One line of the scan: the text collected so far grows by what the line adds. */
  lemma ScanStep(before: string, stage: string, lines: seq<string>, i: nat)
    requires IsStage(stage) && i < |lines|
    ensures before + ScanFrom(stage, lines[i..])
            == (before + Appended(stage, lines[i])) + ScanFrom(NextStage(stage, lines[i]), lines[i + 1..])
  {
    assert lines[i..][0] == lines[i] && lines[i..][1..] == lines[i + 1..];
    SeqAssoc(before, Appended(stage, lines[i]), ScanFrom(NextStage(stage, lines[i]), lines[i + 1..]));
  }

  /**
   * The scanning loop of decrypt.go:40-68. The `break` on the END line
   * leaves only the `switch`, so the loop goes on to the next line.
   */
  method ScanArmor(lines: seq<string>) returns (payloadB64: string)
    ensures payloadB64 == ScanFrom(Looking, lines)
  {
    var stage := Looking;
    payloadB64 := "";
    for i := 0 to |lines|
      invariant IsStage(stage)
      invariant payloadB64 + ScanFrom(stage, lines[i..]) == ScanFrom(Looking, lines)
    {
      var line := lines[i];
      ghost var next := NextStage(stage, line);
      ghost var added := Appended(stage, line);
      ghost var before := payloadB64;
      ScanStep(payloadB64, stage, lines, i);
      if stage == Looking {
        if BeginLine <= line {
          stage := Started;
        }
      } else if stage == Started {
        if line == "" {
          stage := Rsa;
        }
      } else if stage == Rsa {
        if !(Dashes <= line) {
          payloadB64 := payloadB64 + Trim(line, "");
        } else if EndLine <= line {
          // `break` here leaves the switch, not the loop.
        }
      } else {
        // The `default` branch that panics: no stage reaches it.
        assert false;
      }
      assert stage == next && payloadB64 == before + added;
    }
  }

  /** The body lines the scanner keeps: those that do not start with `-----`, in order. */
  function Kept(lines: seq<string>): (r: seq<string>)
    ensures forall i :: 0 <= i < |r| ==> !(Dashes <= r[i])
    ensures forall l :: l in r <==> l in lines && !(Dashes <= l)
    ensures |r| <= |lines|
  {
    if lines == [] then []
    else if Dashes <= lines[0] then Kept(lines[1..])
    else [lines[0]] + Kept(lines[1..])
  }

  /** A single line is kept exactly when it does not start with `-----`; with `KeptAppend` this fixes `Kept`. */
  lemma KeptOne(l: string)
    ensures Kept([l]) == if Dashes <= l then [] else [l]
  {
    assert [l][0] == l && [l][1..] == [];
  }

  /** In the header stage lines are skipped up to the first empty line. */
  lemma {:induction false} ScanHeader(header: seq<string>, body: seq<string>)
    requires forall i :: 0 <= i < |header| ==> header[i] != []
    ensures ScanFrom(Started, header + [""] + body) == Flatten(Kept(body))
  {
    if header == [] {
      assert ([] + [""] + body)[1..] == body;
    } else {
      assert (header + [""] + body)[1..] == header[1..] + [""] + body;
      ScanHeader(header[1..], body);
    }
  }

  /** Without an empty line after it, the header swallows everything: nothing is collected. */
  lemma {:induction false} ScanHeaderUnended(header: seq<string>)
    requires forall i :: 0 <= i < |header| ==> header[i] != []
    ensures ScanFrom(Started, header) == []
  {
    if header != [] {
      ScanHeaderUnended(header[1..]);
    }
  }

  /** Lines before the first BEGIN line are ignored; without any BEGIN line the text stays empty. */
  lemma {:induction false} ScanWithoutBegin(lines: seq<string>)
    requires forall i :: 0 <= i < |lines| ==> !(BeginLine <= lines[i])
    ensures ScanFrom(Looking, lines) == []
  {
    if lines != [] {
      ScanWithoutBegin(lines[1..]);
    }
  }

  /**
   * The scan of `pre`, a BEGIN line, header lines, an empty line and `body`
   * collects exactly the kept lines of `body`, when `pre` has no BEGIN line
   * and the header no empty line.
   */
  lemma {:induction false} ScanSections(pre: seq<string>, begin: string, header: seq<string>, body: seq<string>)
    requires forall i :: 0 <= i < |pre| ==> !(BeginLine <= pre[i])
    requires BeginLine <= begin
    requires forall i :: 0 <= i < |header| ==> header[i] != []
    ensures ScanFrom(Looking, pre + [begin] + header + [""] + body) == Flatten(Kept(body))
  {
    if pre == [] {
      assert ([] + [begin] + header + [""] + body)[1..] == header + [""] + body;
      ScanHeader(header, body);
    } else {
      assert (pre + [begin] + header + [""] + body)[1..] == pre[1..] + [begin] + header + [""] + body;
      ScanSections(pre[1..], begin, header, body);
    }
  }

  /** No wrapped line of base64 text starts with `-----`, so the scanner keeps all of them. */
  lemma {:induction false} KeptChunks(s: string)
    requires IsBase64Text(s)
    ensures Kept(Chunks(s, LineWidth)) == Chunks(s, LineWidth)
    decreases |s|
  {
    if s != [] {
      var first := Chunks(s, LineWidth)[0];
      assert first[0] == s[0] && IsBase64Char(s[0]);
      assert !(Dashes <= first);
      if |s| > LineWidth {
        KeptChunks(s[LineWidth..]);
      }
    }
  }

  lemma {:induction false} KeptAppend(a: seq<string>, b: seq<string>)
    ensures Kept(a + b) == Kept(a) + Kept(b)
  {
    if a == [] {
      assert a + b == b;
    } else {
      assert (a + b)[0] == a[0] && (a + b)[1..] == a[1..] + b;
      KeptAppend(a[1..], b);
    }
  }

  /**
   * As written, scanning the encoder's armor, followed by any further lines,
   * yields the base64 text and then whatever the further lines keep: the scan
   * does not stop at the END line.
   */
  lemma ScanAfterArmor(b64: string, trailing: seq<string>)
    requires IsBase64Text(b64)
    ensures ScanFrom(Looking, ArmorLines(b64) + trailing) == b64 + Flatten(Kept(trailing))
  {
    var chunks := Chunks(b64, LineWidth);
    var body := chunks + ([EndLine] + trailing);
    assert ArmorLines(b64) + trailing == [] + [BeginLine] + [VersionLine] + [""] + body;
    ScanSections([], BeginLine, [VersionLine], body);
    KeptAppend(chunks, [EndLine] + trailing);
    KeptAppend([EndLine], trailing);
    KeptEndLine();
    KeptChunks(b64);
    assert Kept(body) == chunks + Kept(trailing);
    FlattenAppend(chunks, Kept(trailing));
  }

  lemma KeptEndLine()
    ensures Kept([EndLine]) == []
  {
    assert EndLine[..5] == Dashes;
    assert Kept([EndLine]) == Kept([EndLine][1..]);
  }

  /** A line that starts with the END marker starts with `-----`. */
  lemma EndLineIsDashed(line: string)
    requires !(Dashes <= line)
    ensures !(EndLine <= line)
  {
    assert EndLine[..5] == Dashes;
    if |line| >= |EndLine| {
      assert line[..|EndLine|][..5] == line[..5];
    }
  }

  /** Scanning the encoder's armor recovers exactly the base64 text it wrapped. */
  lemma ScanArmorRoundTrip(b64: string)
    requires IsBase64Text(b64)
    ensures ScanFrom(Looking, ArmorLines(b64)) == b64
  {
    ScanAfterArmor(b64, []);
    assert ArmorLines(b64) + [] == ArmorLines(b64);
  }

  /** An armor followed by a stray line: the stray text is glued to the payload. */
  lemma ScanPastEndExample(b64: string)
    requires b64 == "QUJD"
    ensures ScanFrom(Looking, ArmorLines(b64) + ["junk"]) == "QUJDjunk"
  {
    ScanAfterArmor(b64, ["junk"]);
    assert !(Dashes <= "junk") by {
      assert "junk"[0] != Dashes[0];
    }
    assert Kept(["junk"]) == ["junk"] + Kept([]);
  }

  /** The scan the END line was meant to stop: in the body stage an END line ends the scan. */
  function ScanUntilEnd(stage: string, lines: seq<string>): string
    requires IsStage(stage)
    decreases |lines|
  {
    if lines == [] then []
    else if stage == Rsa && EndLine <= lines[0] then []
    else Appended(stage, lines[0]) + ScanUntilEnd(NextStage(stage, lines[0]), lines[1..])
  }

  /** Stopping at the END line, the scan recovers the base64 text whatever lines follow the armor. */
  lemma ScanUntilEndRoundTrip(b64: string, trailing: seq<string>)
    requires IsBase64Text(b64)
    ensures ScanUntilEnd(Looking, ArmorLines(b64) + trailing) == b64
  {
    var chunks := Chunks(b64, LineWidth);
    var body := chunks + [EndLine] + trailing;
    assert ArmorLines(b64) + trailing == [BeginLine] + ([VersionLine] + ([""] + body));
    HeaderSteps(body);
    KeptChunks(b64);
    BodyUntilEnd(chunks, trailing);
  }

  /** The BEGIN line, the version header and the empty line lead the scan into the body stage. */
  lemma HeaderSteps(body: seq<string>)
    ensures ScanUntilEnd(Looking, [BeginLine] + ([VersionLine] + ([""] + body))) == ScanUntilEnd(Rsa, body)
  {
    assert |Looking| != |Rsa| && |Started| != |Rsa| && Looking[0] != Started[0];
    var afterBegin := [VersionLine] + ([""] + body);
    assert ([BeginLine] + afterBegin)[0] == BeginLine && ([BeginLine] + afterBegin)[1..] == afterBegin;
    assert BeginLine <= BeginLine by {
      assert BeginLine[..|BeginLine|] == BeginLine;
    }
    assert NextStage(Looking, BeginLine) == Started && Appended(Looking, BeginLine) == [];
    assert |VersionLine| > 0;
    assert afterBegin[0] == VersionLine && afterBegin[1..] == [""] + body;
    assert NextStage(Started, VersionLine) == Started && Appended(Started, VersionLine) == [];
    assert ([""] + body)[0] == "" && ([""] + body)[1..] == body;
    assert NextStage(Started, "") == Rsa && Appended(Started, "") == [];
    assert ScanUntilEnd(Looking, [BeginLine] + afterBegin) == [] + ScanUntilEnd(Started, afterBegin);
    assert ScanUntilEnd(Started, afterBegin) == [] + ScanUntilEnd(Started, [""] + body);
    assert ScanUntilEnd(Started, [""] + body) == [] + ScanUntilEnd(Rsa, body);
  }

  /** In the body stage, a line not starting with `-----` is kept whole and the scan goes on. */
  lemma BodyStep(line: string, rest: seq<string>)
    requires !(Dashes <= line)
    ensures ScanUntilEnd(Rsa, [line] + rest) == line + ScanUntilEnd(Rsa, rest)
  {
    var lines := [line] + rest;
    assert lines[0] == line && lines[1..] == rest;
    EndLineIsDashed(line);
    BodyLine(line);
    calc {
      ScanUntilEnd(Rsa, lines);
      Appended(Rsa, line) + ScanUntilEnd(NextStage(Rsa, line), rest);
      line + ScanUntilEnd(Rsa, rest);
    }
  }

  /** In the body stage, a line not starting with `-----` is kept whole and the stage stays. */
  lemma BodyLine(line: string)
    requires !(Dashes <= line)
    ensures Appended(Rsa, line) == line && NextStage(Rsa, line) == Rsa
  {
    BodyStays(line);
    assert Trim(line, []) == line;
  }

  /** The body stage is the last: no line leaves it. */
  lemma BodyStays(line: string)
    ensures NextStage(Rsa, line) == Rsa
  {
    assert |Rsa| != |Looking| && |Rsa| != |Started|;
  }

  lemma {:induction false} BodyUntilEnd(chunks: seq<string>, trailing: seq<string>)
    requires forall line :: line in chunks ==> !(Dashes <= line)
    ensures ScanUntilEnd(Rsa, chunks + [EndLine] + trailing) == Flatten(chunks)
  {
    if chunks == [] {
      assert (chunks + [EndLine] + trailing)[0] == EndLine;
    } else {
      var line := chunks[0];
      var rest := chunks[1..] + [EndLine] + trailing;
      assert line in chunks;
      assert chunks + [EndLine] + trailing == [line] + rest;
      BodyStep(line, rest);
      assert forall l :: l in chunks[1..] ==> l in chunks;
      BodyUntilEnd(chunks[1..], trailing);
    }
  }
}
