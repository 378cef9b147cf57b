/** The change-only history of device configurations. */
module ConfigHistory {
  import opened Options
  import opened Text

  // --------------------------------------------------------------------------- normalisation

  const CHANGE_MARKER := "! Last configuration change"
  const TIME_MARKER := "!Time"

  predicate Volatile(line: string) {
    StartsWith(line, CHANGE_MARKER) || StartsWith(line, TIME_MARKER)
  }

  function Kept(lines: seq<string>): seq<string> {
    if lines == [] then []
    else Kept(lines[..|lines| - 1]) + if Volatile(lines[|lines| - 1]) then [] else [RStrip(lines[|lines| - 1])]
  }

  function Normalize(text: string): string {
    Strip(Join(Kept(SplitLines(text))))
  }

  /** `normalize`, as a loop over the lines. */
  method NormalizeText(text: string) returns (normalized: string)
    ensures normalized == Normalize(text)
  {
    var source := SplitLines(text);
    var lines := [];
    for i := 0 to |source|
      invariant lines == Kept(source[..i])
    {
      assert source[..i + 1][..i] == source[..i];
      if !StartsWith(source[i], CHANGE_MARKER) {
        if !StartsWith(source[i], TIME_MARKER) {
          lines := lines + [RStrip(source[i])];
        }
      }
    }
    assert source[..|source|] == source;
    return Strip(Join(lines));
  }

  /** Lines as `Kept` leaves them. */
  predicate Clean(lines: seq<string>) {
    forall i :: 0 <= i < |lines| ==> BreakFree(lines[i]) && RStrip(lines[i]) == lines[i]
  }

  predicate Settled(lines: seq<string>) {
    forall i :: 0 <= i < |lines| ==> !Volatile(lines[i])
  }

  lemma PrefixNotVolatile(line: string, n: nat)
    requires !Volatile(line) && n <= |line|
    ensures !Volatile(line[..n])
  {
  }

  lemma {:induction false} KeptIsClean(lines: seq<string>)
    requires forall i :: 0 <= i < |lines| ==> BreakFree(lines[i])
    ensures Clean(Kept(lines)) && Settled(Kept(lines))
  {
    if lines != [] {
      KeptIsClean(lines[..|lines| - 1]);
      var last := lines[|lines| - 1];
      assert RStrip(RStrip(last)) == RStrip(last);
      if !Volatile(last) {
        PrefixNotVolatile(last, |RStrip(last)|);
      }
    }
  }

  lemma LastIsSettled(lines: seq<string>)
    requires Clean(lines) && Settled(lines) && lines != []
    ensures var n := |lines| - 1;
            Clean(lines[..n]) && Settled(lines[..n]) && RStrip(lines[n]) == lines[n] && !Volatile(lines[n])
  {
    hide Volatile, BreakFree, RStrip;
  }

  lemma {:induction false} KeepsSettledLines(lines: seq<string>)
    requires Clean(lines) && Settled(lines)
    ensures Kept(lines) == lines
  {
    hide Clean, Settled, Volatile, RStrip;
    if lines != [] {
      var n := |lines| - 1;
      LastIsSettled(lines);
      KeepsSettledLines(lines[..n]);
      assert lines[..n] + [lines[n]] == lines;
    }
  }

  lemma {:induction false} KeptOfConcat(a: seq<string>, b: seq<string>)
    ensures Kept(a + b) == Kept(a) + Kept(b)
  {
    if b == [] {
      assert a + b == a;
    } else {
      assert (a + b)[..|a + b| - 1] == a + b[..|b| - 1];
      KeptOfConcat(a, b[..|b| - 1]);
    }
  }

  /** Stripping the joined text drops blank lines at both ends and the indentation of the first line. */
  function LeadTrim(lines: seq<string>): seq<string> {
    if lines == [] then [] else if lines[0] == "" then LeadTrim(lines[1..]) else [LStrip(lines[0])] + lines[1..]
  }

  function TailTrim(lines: seq<string>): seq<string> {
    if lines == [] then [] else if lines[|lines| - 1] == "" then TailTrim(lines[..|lines| - 1]) else lines
  }

  lemma LStripSpace(s: string, rest: string)
    requires s != "" && s[1..] == rest && IsSpace(s[0])
    ensures LStrip(s) == LStrip(rest)
  {
    hide IsSpace;
  }

  lemma LStripStops(s: string)
    requires s != "" && !IsSpace(s[0])
    ensures LStrip(s) == s
  {
  }

  lemma DropOfConcat(a: string, b: string)
    requires a != ""
    ensures (a + b)[1..] == a[1..] + b && (a + b)[0] == a[0]
  {
  }

  lemma {:induction false} LStripOfConcat(a: string, b: string)
    requires a != "" && !IsSpace(a[|a| - 1])
    ensures LStrip(a) != "" && LStrip(a + b) == LStrip(a) + b
  {
    hide IsSpace, LStrip;
    DropOfConcat(a, b);
    if IsSpace(a[0]) {
      LStripOfConcat(a[1..], b);
      LStripSpace(a, a[1..]);
      LStripSpace(a + b, a[1..] + b);
    } else {
      LStripStops(a);
      LStripStops(a + b);
    }
  }

  lemma JoinStep(lines: seq<string>)
    requires lines != []
    ensures Join(lines) == lines[0] + if |lines| == 1 then "" else "\n" + Join(lines[1..])
  {
  }

  lemma LStripBlankLine(lines: seq<string>)
    requires |lines| > 1 && lines[0] == ""
    ensures LStrip(Join(lines)) == LStrip(Join(lines[1..]))
  {
    assert IsSpace('\n');
    hide LStrip, Join;
    JoinStep(lines);
    LStripSpace(Join(lines), Join(lines[1..]));
  }

  lemma LStripFirstLine(lines: seq<string>)
    requires Clean(lines) && lines != [] && lines[0] != ""
    ensures LStrip(Join(lines)) == Join([LStrip(lines[0])] + lines[1..])
  {
    hide IsSpace, BreakFree, RStrip, LStrip, Join;
    assert RStrip(lines[0]) == lines[0];
    var rest := if |lines| == 1 then "" else "\n" + Join(lines[1..]);
    JoinStep(lines);
    LStripOfConcat(lines[0], rest);
    var after := [LStrip(lines[0])] + lines[1..];
    JoinStep(after);
    assert after[1..] == lines[1..];
  }

  lemma RestIsClean(lines: seq<string>)
    requires Clean(lines) && lines != []
    ensures Clean(lines[1..]) && (Settled(lines) ==> Settled(lines[1..]))
  {
    hide Volatile, BreakFree, RStrip;
  }

  lemma {:induction false} LStripJoin(lines: seq<string>)
    requires Clean(lines)
    ensures LStrip(Join(lines)) == Join(LeadTrim(lines))
  {
    if lines == [""] {
      assert lines[1..] == [];
    } else if lines != [] {
      hide LStrip, Join, Clean;
      if lines[0] == "" {
        LStripBlankLine(lines);
        RestIsClean(lines);
        LStripJoin(lines[1..]);
      } else {
        LStripFirstLine(lines);
      }
    }
  }

  lemma {:induction false} RStripJoin(lines: seq<string>)
    requires forall i :: 0 <= i < |lines| ==> RStrip(lines[i]) == lines[i]
    ensures RStrip(Join(lines)) == Join(TailTrim(lines))
    decreases |lines|
  {
    if lines != [] {
      var last, init := lines[|lines| - 1], lines[..|lines| - 1];
      assert RStrip(last) == last;
      if |lines| > 1 {
        JoinLast(lines);
        if last == "" {
          assert Join(lines) == Join(init) + "\n" && Join(lines)[..|Join(init)|] == Join(init);
        }
      }
      RStripJoin(init);
    }
  }

  /** The lines of a normalised text. */
  function Core(text: string): seq<string> {
    TailTrim(LeadTrim(Kept(SplitLines(text))))
  }

  lemma LStripKeepsClean(line: string)
    requires BreakFree(line) && RStrip(line) == line && line != ""
    ensures var l := LStrip(line);
            l != "" && BreakFree(l) && RStrip(l) == l
  {
    hide IsBreak, IsSpace, LStrip;
    LStripOfConcat(line, "");
    assert line + "" == line;
    var l := LStrip(line);
    assert forall k :: 0 <= k < |l| ==> l[k] == line[|line| - |l| + k];
  }

  lemma TrimmedFirstLine(lines: seq<string>)
    requires Clean(lines) && Settled(lines) && lines != [] && lines[0] != ""
    ensures var l := [LStrip(lines[0])] + lines[1..];
            Clean(l) && l[0] != "" && Settled(l[1..])
  {
    hide Volatile, BreakFree, LStrip, RStrip;
    LStripKeepsClean(lines[0]);
    var l := [LStrip(lines[0])] + lines[1..];
    assert forall i :: 0 < i < |l| ==> l[i] == lines[i];
    assert l[1..] == lines[1..];
  }

  lemma {:induction false} LeadTrimKeeps(lines: seq<string>)
    requires Clean(lines) && Settled(lines)
    ensures var l := LeadTrim(lines);
            && Clean(l) && (l != [] ==> l[0] != "" && Settled(l[1..]))
  {
    hide Clean, Settled, LStrip;
    if lines != [] {
      if lines[0] == "" {
        RestIsClean(lines);
        LeadTrimKeeps(lines[1..]);
      } else {
        TrimmedFirstLine(lines);
      }
    }
  }

  lemma {:induction false} TailTrimKeeps(lines: seq<string>)
    ensures var t := TailTrim(lines);
            && t <= lines && (t != [] ==> t[|t| - 1] != "")
            && (lines != [] && lines[0] != "" ==> t != [])
  {
    if lines != [] && lines[|lines| - 1] == "" {
      TailTrimKeeps(lines[..|lines| - 1]);
    }
  }

  lemma NormalizeIsJoinedCore(text: string)
    ensures Normalize(text) == Join(Core(text)) && SplitLines(Normalize(text)) == Core(text)
    ensures Clean(Core(text)) && (Core(text) != [] ==> Settled(Core(text)[1..]))
    ensures Core(text) == [] <==> LeadTrim(Kept(SplitLines(text))) == []
    ensures Core(text) != [] ==> Core(text)[0] == LeadTrim(Kept(SplitLines(text)))[0]
  {
    hide Volatile, BreakFree, LStrip, RStrip, SplitLines, Kept, LeadTrim, TailTrim, Join;
    var lines := Kept(SplitLines(text));
    SplitIsBreakFree(text);
    KeptIsClean(SplitLines(text));
    LeadTrimKeeps(lines);
    TailTrimKeeps(LeadTrim(lines));
    LStripJoin(lines);
    RStripJoin(LeadTrim(lines));
    SplitJoin(Core(text));
  }

  /** The first non-blank kept line is a marker once its indentation is removed. */
  predicate HidesMarker(text: string) {
    var lines := LeadTrim(Kept(SplitLines(text)));
    lines != [] && Volatile(lines[0])
  }

  lemma KeptOfOne(line: string)
    ensures Kept([line]) == if Volatile(line) then [] else [RStrip(line)]
  {
    hide RStrip, Volatile;
    assert Kept([line][..0]) == [];
  }

  lemma FirstIsStripped(core: seq<string>)
    requires Clean(core) && core != [] && Settled(core[1..])
    ensures RStrip(core[0]) == core[0] && Clean(core[1..])
  {
    hide BreakFree, RStrip;
  }

  /** Keeping the core lines again drops at most the first. */
  lemma KeptOfCore(core: seq<string>)
    requires Clean(core) && core != [] && Settled(core[1..])
    ensures Kept(core) == if Volatile(core[0]) then core[1..] else core
  {
    hide Volatile, Clean, Settled, RStrip, Kept;
    FirstIsStripped(core);
    assert core == [core[0]] + core[1..];
    KeptOfConcat([core[0]], core[1..]);
    KeptOfOne(core[0]);
    KeepsSettledLines(core[1..]);
  }

  lemma JoinIsLonger(lines: seq<string>)
    requires lines != [] && lines[0] != ""
    ensures |Join(lines[1..])| < |Join(lines)|
  {
  }

  /** Normalising twice is normalising once, exactly for texts that do not open with an indented marker. */
  lemma NormalizeIdempotent(text: string)
    ensures Normalize(Normalize(text)) == Normalize(text) <==> !HidesMarker(text)
  {
    hide Volatile, BreakFree, LStrip, RStrip, SplitLines, Kept, LeadTrim, TailTrim, Join, Core;
    NormalizeIsJoinedCore(text);
    var core := Core(text);
    StripTrims(Join(Kept(SplitLines(text))));
    StripTrims(Normalize(text));
    if core == [] {
      EmptyNormalizes(text);
    } else {
      KeptOfCore(core);
      if Volatile(core[0]) {
        StripTrims(Join(core[1..]));
        CoreStartsNonBlank(text);
        JoinIsLonger(core);
      }
    }
  }

  /** The failing case: the marker comes to light when its indentation is stripped. */
  const INDENTED_MARKER := " !Time"

  lemma MarkerIsOneLine()
    ensures SplitLines(INDENTED_MARKER) == [INDENTED_MARKER]
  {
    var i := FirstBreak(INDENTED_MARKER);
    assert forall k :: 0 <= k < 6 ==> !IsBreak(INDENTED_MARKER[k]);
    assert i == 6;
  }

  lemma MarkerIsKept()
    ensures Kept([INDENTED_MARKER]) == [INDENTED_MARKER]
  {
    hide Kept;
    assert INDENTED_MARKER[0] == ' ' && CHANGE_MARKER[0] == '!' && TIME_MARKER[0] == '!';
    assert RStrip(INDENTED_MARKER) == INDENTED_MARKER;
    assert !StartsWith(INDENTED_MARKER, CHANGE_MARKER) && !StartsWith(INDENTED_MARKER, TIME_MARKER);
    KeptOfOne(INDENTED_MARKER);
  }

  lemma MarkerComesToLight()
    ensures LStrip(INDENTED_MARKER) == "!Time" && Volatile("!Time")
  {
    assert INDENTED_MARKER[1..] == "!Time" && IsSpace(' ') && !IsSpace('!');
    assert StartsWith("!Time", TIME_MARKER);
  }

  lemma IndentedMarkerIsUnstable()
    ensures HidesMarker(INDENTED_MARKER) && Normalize(Normalize(INDENTED_MARKER)) != Normalize(INDENTED_MARKER)
  {
    hide Normalize, Volatile, LStrip, SplitLines, Kept;
    MarkerIsOneLine();
    MarkerIsKept();
    MarkerComesToLight();
    NormalizeIdempotent(INDENTED_MARKER);
  }

  lemma EmptyNormalizes(text: string)
    requires Core(text) == []
    ensures Normalize(Normalize(text)) == Normalize(text) == ""
  {
    NormalizeIsJoinedCore(text);
    assert Kept([]) == [] && Join([]) == "" && Strip("") == "";
  }

  lemma CoreStartsNonBlank(text: string)
    ensures Core(text) != [] ==> Core(text)[0] != ""
  {
    hide Volatile, BreakFree, LStrip, RStrip, SplitLines, Kept, LeadTrim, TailTrim, Join;
    SplitIsBreakFree(text);
    KeptIsClean(SplitLines(text));
    LeadTrimKeeps(Kept(SplitLines(text)));
    TailTrimKeeps(LeadTrim(Kept(SplitLines(text))));
  }

  // ------------------------------------------------------------------- what normalisation leaves out

  /** The markers, spelt out. */
  predicate IsMarker(line: string) {
    "! Last configuration change" <= line || "!Time" <= line
  }

  /** The lines that are no markers, without white space at their ends and without blank ones. */
  function Content(lines: seq<string>): seq<string> {
    if lines == [] then [] else
    var init, last := lines[..|lines| - 1], lines[|lines| - 1];
    Content(init) + if IsMarker(last) || RStrip(last) == "" then [] else [RStrip(last)]
  }

  /** The same, markers included. */
  function Trimmings(lines: seq<string>): seq<string> {
    if lines == [] then [] else
    var init, last := lines[..|lines| - 1], lines[|lines| - 1];
    Trimmings(init) + if RStrip(last) == "" then [] else [RStrip(last)]
  }

  function FirstUnindented(lines: seq<string>): seq<string> {
    if lines == [] then [] else [LStrip(lines[0])] + lines[1..]
  }

  lemma MarkersAreVolatile(line: string)
    ensures IsMarker(line) <==> Volatile(line)
  {
  }

  lemma {:induction false} TrimmingsOfConcat(a: seq<string>, b: seq<string>)
    ensures Trimmings(a + b) == Trimmings(a) + Trimmings(b)
  {
    hide RStrip;
    if b == [] {
      assert a + b == a;
    } else {
      assert (a + b)[..|a + b| - 1] == a + b[..|b| - 1];
      TrimmingsOfConcat(a, b[..|b| - 1]);
    }
  }

  lemma TrimmingsOfOne(line: string)
    ensures Trimmings([line]) == if RStrip(line) == "" then [] else [RStrip(line)]
  {
    hide RStrip;
    assert Trimmings([line][..0]) == [];
  }

  lemma RStripTwice(s: string)
    ensures RStrip(RStrip(s)) == RStrip(s)
  {
    hide IsSpace;
  }

  lemma {:induction false} KeptTrimmings(lines: seq<string>)
    ensures Trimmings(Kept(lines)) == Content(lines)
  {
    if lines == [] {
      assert Trimmings([]) == [];
    } else {
      hide RStrip, Volatile, IsMarker, Trimmings;
      var init, last := lines[..|lines| - 1], lines[|lines| - 1];
      KeptTrimmings(init);
      MarkersAreVolatile(last);
      RStripTwice(last);
      TrimmingsOfConcat(Kept(init), [RStrip(last)]);
      TrimmingsOfOne(RStrip(last));
      assert Kept(init) + [] == Kept(init);
    }
  }

  /** A line before others. */
  lemma TrimmingsOfFirst(line: string, rest: seq<string>)
    requires RStrip(line) == line
    ensures Trimmings([line] + rest) == if line == "" then Trimmings(rest) else [line] + Trimmings(rest)
  {
    hide RStrip, Trimmings;
    TrimmingsOfConcat([line], rest);
    TrimmingsOfOne(line);
  }

  lemma {:induction false} LeadTrimmings(lines: seq<string>)
    requires Clean(lines)
    ensures Trimmings(LeadTrim(lines)) == FirstUnindented(Trimmings(lines))
  {
    hide RStrip, LStrip, BreakFree, Trimmings, Clean;
    if lines == [] {
      NoTrimmings();
    } else {
      var first, rest := lines[0], lines[1..];
      assert lines == [first] + rest;
      CleanAt(lines, 0);
      RestIsClean(lines);
      TrimmingsOfFirst(first, rest);
      if first == "" {
        LeadTrimmings(rest);
      } else {
        LStripKeepsClean(first);
        TrimmingsOfFirst(LStrip(first), rest);
      }
    }
  }

  lemma NoTrimmings()
    ensures Trimmings([]) == []
  {
  }

  lemma CleanAt(lines: seq<string>, i: nat)
    requires Clean(lines) && i < |lines|
    ensures BreakFree(lines[i]) && RStrip(lines[i]) == lines[i]
  {
  }

  lemma {:induction false} TailTrimmings(lines: seq<string>)
    ensures Trimmings(TailTrim(lines)) == Trimmings(lines)
  {
    assert RStrip("") == "";
    hide RStrip;
    if lines != [] && lines[|lines| - 1] == "" {
      TailTrimmings(lines[..|lines| - 1]);
    }
  }

  /** No configuration line is lost, added, reordered or indented anew: up to white space at their ends the
      non-blank lines of the normalised text are those of the text that are no markers; only the first one
      loses its indentation. */
  lemma NormalizeKeepsContent(text: string)
    ensures Trimmings(SplitLines(Normalize(text))) == FirstUnindented(Content(SplitLines(text)))
  {
    hide Trimmings, Content, Kept, LeadTrim, TailTrim, SplitLines, Normalize, Clean;
    NormalizeIsJoinedCore(text);
    SplitIsBreakFree(text);
    KeptIsClean(SplitLines(text));
    KeptTrimmings(SplitLines(text));
    LeadTrimmings(Kept(SplitLines(text)));
    TailTrimmings(LeadTrim(Kept(SplitLines(text))));
  }

  /** Texts whose lines differ only in markers are one version. */
  lemma MarkersMakeNoVersion(text: string, other: string, a: seq<string>, b: seq<string>, marker: string)
    requires SplitLines(text) == a + [marker] + b && SplitLines(other) == a + b && IsMarker(marker)
    ensures Normalize(text) == Normalize(other)
  {
    hide SplitLines, Strip, Volatile, IsMarker, Kept;
    MarkersAreVolatile(marker);
    KeptOfConcat(a + [marker], b);
    KeptOfConcat(a, [marker]);
    KeptOfConcat(a, b);
    KeptOfOne(marker);
    assert Kept(a) + [] == Kept(a);
  }

  // ------------------------------------------------------------------------------- the history

  /** SHA-256, taken to be collision-free. The column of a failed collection holds no digest. */
  datatype Digest = NoDigest | Sha256(text: string)

  datatype Row = Row(device: nat, at: int, text: string, source: string, by_: Option<nat>,
                     error: Option<string>, digest: Digest, previous: Option<nat>, success: bool)

  /** One call of `persist`, with the reading of the clock. */
  datatype Call = Call(device: nat, at: int, text: string, source: string, by_: Option<nat>, success: bool,
      error: Option<string>)

  /** The row of a device with the greatest time. */
  function Latest(rows: seq<Row>, device: nat): (r: Option<nat>)
    ensures r.None? ==> forall i :: 0 <= i < |rows| ==> rows[i].device != device
    ensures r.Some? ==>
              && r.value < |rows| && rows[r.value].device == device
              && forall i :: 0 <= i < |rows| && rows[i].device == device ==> rows[i].at <= rows[r.value].at
  {
    if rows == [] then None else
    var n := |rows| - 1;
    var before := Latest(rows[..n], device);
    if rows[n].device == device && (before.None? || rows[before.value].at <= rows[n].at) then Some(n) else before
  }

  /** A row of the device with the greatest time, or none when it has no row. */
  predicate NewestOf(rows: seq<Row>, device: nat, latest: Option<nat>) {
    match latest
    case None => forall i :: 0 <= i < |rows| ==> rows[i].device != device
    case Some(k) =>
      && k < |rows| && rows[k].device == device
      && forall i :: 0 <= i < |rows| && rows[i].device == device ==> rows[i].at <= rows[k].at
  }

  function RowFor(c: Call, latest: Option<nat>): Row {
    if c.success then
      Row(c.device, c.at, Normalize(c.text), c.source, c.by_, None, Sha256(Normalize(c.text)), latest, true)
    else
      Row(c.device, c.at, "", c.source, None, c.error, NoDigest, None, false)
  }

  function Persist(rows: seq<Row>, c: Call): seq<Row> {
    var latest := Latest(rows, c.device);
    if c.success && latest.Some? && rows[latest.value].digest == Sha256(Normalize(c.text)) then rows
    else rows + [RowFor(c, latest)]
  }

  class ConfigLog {
    var rows: seq<Row>

    constructor ()
      ensures rows == []
    {
      rows := [];
    }

    /** The query for the latest row. */
    method FindLatest(device: nat) returns (latest: Option<nat>)
      ensures latest == Latest(rows, device)
    {
      latest := None;
      for i := 0 to |rows|
        invariant latest == Latest(rows[..i], device)
      {
        assert rows[..i + 1][..i] == rows[..i];
        if rows[i].device == device && (latest.None? || rows[latest.value].at <= rows[i].at) {
          latest := Some(i);
        }
      }
      assert rows[..|rows|] == rows;
    }

    /** `persist`: None when nothing changed. */
    method PersistConfig(c: Call) returns (created: Option<Row>)
      modifies this
      ensures rows == Persist(old(rows), c)
      ensures rows == old(rows) + if created.Some? then [created.value] else []
      ensures !c.success ==>
                created == Some(Row(c.device, c.at, "", c.source, None, c.error, NoDigest, None, false))
      ensures c.success && created.Some? ==>
                && var previous := created.value.previous;
                && NewestOf(old(rows), c.device, previous)
                && (previous.Some? ==> old(rows)[previous.value].digest != Sha256(Normalize(c.text)))
                && created.value == Row(c.device, c.at, Normalize(c.text), c.source, c.by_, None,
                                        Sha256(Normalize(c.text)), previous, true)
      ensures created.None? ==>
                && c.success
                && exists i: nat :: NewestOf(old(rows), c.device, Some(i))
                                    && old(rows)[i].digest == Sha256(Normalize(c.text))
    {
      if !c.success {
        var failure := RowFor(c, None);
        rows := rows + [failure];
        return Some(failure);
      }
      var normalized := NormalizeText(c.text);
      var latest := FindLatest(c.device);
      if latest.Some? && rows[latest.value].digest == Sha256(normalized) {
        assert NewestOf(rows, c.device, Some(latest.value));
        return None;
      }
      var row := RowFor(c, latest);
      rows := rows + [row];
      return Some(row);
    }
  }

  ghost function Run(calls: seq<Call>): seq<Row> {
    if calls == [] then [] else Persist(Run(calls[..|calls| - 1]), calls[|calls| - 1])
  }

  /** The clock advances between calls. */
  predicate Ticking(calls: seq<Call>) {
    forall i, j :: 0 <= i < j < |calls| ==> calls[i].at < calls[j].at
  }

  // ------------------------------------------------------------------- an independent description

  /** A stored version: when, what, from which source, and who collected it or why that failed. */
  datatype Version = Version(at: int, text: string, success: bool, error: Option<string>, source: string,
                             by_: Option<nat>)

  function VersionOf(c: Call): Version {
    if c.success then Version(c.at, Normalize(c.text), true, None, c.source, c.by_)
    else Version(c.at, "", false, c.error, c.source, None)
  }

  /** The stored history of a device. */
  function History(rows: seq<Row>, device: nat): seq<Version> {
    if rows == [] then [] else
    var r := rows[|rows| - 1];
    History(rows[..|rows| - 1], device) + if r.device == device then
        [Version(r.at, r.text, r.success, r.error, r.source, r.by_)] else []
  }

  /** The last call for a device. */
  function LastCall(calls: seq<Call>, device: nat): Option<Call> {
    if calls == [] then None
    else if calls[|calls| - 1].device == device then Some(calls[|calls| - 1])
    else LastCall(calls[..|calls| - 1], device)
  }

  /** The calls for a device, without the successes whose normalised text is that of the success
      called just before. Every failure stays. */
  function Changes(calls: seq<Call>, device: nat): seq<Version> {
    if calls == [] then [] else
    var init, c := calls[..|calls| - 1], calls[|calls| - 1];
    var p := LastCall(init, device);
    if c.device != device || (c.success && p.Some? && p.value.success
        && Normalize(p.value.text) == Normalize(c.text)) then
      Changes(init, device)
    else
      Changes(init, device) + [VersionOf(c)]
  }

  /** The last row of a device in table order. */
  function LastRow(rows: seq<Row>, device: nat): Option<nat> {
    if rows == [] then None
    else if rows[|rows| - 1].device == device then Some(|rows| - 1)
    else LastRow(rows[..|rows| - 1], device)
  }

  predicate Ordered(rows: seq<Row>, now: int) {
    && (forall i, j :: 0 <= i < j < |rows| ==> rows[i].at < rows[j].at)
    && (forall i :: 0 <= i < |rows| ==> rows[i].at <= now)
  }

  /** Each stored success links to the row of its device just before it; failures link nowhere. */
  predicate Linked(rows: seq<Row>) {
    forall i :: 0 <= i < |rows| ==>
        rows[i].previous == if rows[i].success then LastRow(rows[..i], rows[i].device) else None
  }

  /** The last row of a device tells what its last call was. */
  predicate Remembers(rows: seq<Row>, calls: seq<Call>, device: nat) {
    match LastCall(calls, device)
    case None => LastRow(rows, device).None?
    case Some(c) =>
      && LastRow(rows, device).Some? && LastRow(rows, device).value < |rows|
      && rows[LastRow(rows, device).value].digest == if c.success then Sha256(Normalize(c.text)) else NoDigest
  }

  lemma {:induction false} LatestIsLast(rows: seq<Row>, now: int, device: nat)
    requires Ordered(rows, now)
    ensures Latest(rows, device) == LastRow(rows, device)
  {
    if rows != [] {
      LatestIsLast(rows[..|rows| - 1], now, device);
    }
  }

  lemma LastRowOfDevice(rows: seq<Row>, device: nat)
    ensures var l := LastRow(rows, device);
            l.Some? ==> l.value < |rows| && rows[l.value].device == device
  {
  }

  /** A stored row is the latest row and the last version of its device, and leaves the others alone. */
  lemma AppendRow(rows: seq<Row>, row: Row, device: nat)
    ensures History(rows + [row], device) == History(rows, device)
              + if row.device == device then [Version(row.at, row.text, row.success, row.error, row.source, row.by_)]
                  else []
    ensures LastRow(rows + [row], device) == if row.device == device then Some(|rows|) else LastRow(rows, device)
  {
    assert (rows + [row])[..|rows|] == rows;
  }

  lemma AppendKeepsLinks(rows: seq<Row>, row: Row, now: int)
    requires Ordered(rows, now) && Linked(rows) && row.at > now
    requires row.previous == if row.success then LastRow(rows, row.device) else None
    ensures Ordered(rows + [row], row.at) && Linked(rows + [row])
  {
    var after := rows + [row];
    assert after[..|rows|] == rows;
    assert forall i :: 0 <= i < |rows| ==> after[..i] == rows[..i];
  }

  lemma ChangesGrow(init: seq<Call>, c: Call, d: nat)
    ensures LastCall(init + [c], d) == if c.device == d then Some(c) else LastCall(init, d)
    ensures var p := LastCall(init, d);
            Changes(init + [c], d)
            == if c.device != d || (c.success && p.Some? && p.value.success
                && Normalize(p.value.text) == Normalize(c.text))
               then Changes(init, d)
               else Changes(init, d) + [VersionOf(c)]
  {
    hide Normalize;
    assert (init + [c])[..|init|] == init;
  }

  lemma StepStoresChange(rows: seq<Row>, init: seq<Call>, c: Call, d: nat)
    requires Ordered(rows, c.at - 1)
    requires History(rows, d) == Changes(init, d) && Remembers(rows, init, d)
    ensures var calls := init + [c];
            History(Persist(rows, c), d) == Changes(calls, d) && Remembers(Persist(rows, c), calls, d)
  {
    hide Normalize, History, LastRow, Ordered, Latest, Changes, LastCall;
    ChangesGrow(init, c, d);
    LatestIsLast(rows, c.at - 1, c.device);
    LastRowOfDevice(rows, d);
    AppendRow(rows, RowFor(c, Latest(rows, c.device)), d);
  }

  lemma StepKeepsLinks(rows: seq<Row>, c: Call, now: int)
    requires Ordered(rows, c.at - 1) && Linked(rows) && c.at <= now
    ensures Ordered(Persist(rows, c), now) && Linked(Persist(rows, c))
  {
    hide Normalize, Linked, LastRow, Latest;
    LatestIsLast(rows, c.at - 1, c.device);
    AppendKeepsLinks(rows, RowFor(c, Latest(rows, c.device)), c.at - 1);
  }

  lemma TickingBefore(calls: seq<Call>)
    requires Ticking(calls) && calls != []
    ensures var n := |calls| - 1;
            Ticking(calls[..n]) && (n > 0 ==> calls[..n][n - 1].at <= calls[n].at - 1)
  {
  }

  /** Over every run of `persist` with an advancing clock, across all devices: the stored history of a
      device is its changes, and the links are as described. */
  lemma {:induction false} RunStoresChanges(calls: seq<Call>, now: int)
    requires Ticking(calls) && (calls != [] ==> calls[|calls| - 1].at <= now)
    ensures Ordered(Run(calls), now) && Linked(Run(calls))
    ensures forall d :: History(Run(calls), d) == Changes(calls, d) && Remembers(Run(calls), calls, d)
    decreases |calls|
  {
    if calls != [] {
      hide Normalize, History, Changes, Remembers, Ordered, Linked, Persist, Ticking;
      var init, c := calls[..|calls| - 1], calls[|calls| - 1];
      assert init + [c] == calls;
      TickingBefore(calls);
      RunStoresChanges(init, c.at - 1);
      StepKeepsLinks(Run(init), c, now);
      forall d
        ensures History(Run(calls), d) == Changes(calls, d) && Remembers(Run(calls), calls, d)
      {
        StepStoresChange(Run(init), init, c, d);
      }
    }
  }

  /** Following `previous` goes to an earlier row of the same device, earlier in time. */
  lemma LinksGoBack(calls: seq<Call>, i: nat)
    requires Ticking(calls) && i < |Run(calls)| && Run(calls)[i].previous.Some?
    ensures var rows := Run(calls);
            var p := rows[i].previous.value;
            && p < i && rows[p].device == rows[i].device && rows[p].at < rows[i].at
            && forall k :: p < k < i ==> rows[k].device != rows[i].device
  {
    RunStoresChanges(calls, calls[|calls| - 1].at);
    NothingBetween(Run(calls)[..i], Run(calls)[i].device);
  }

  lemma {:induction false} NothingBetween(rows: seq<Row>, device: nat)
    ensures var l := LastRow(rows, device);
            l.Some? ==> l.value < |rows| && rows[l.value].device == device
                        && forall k :: l.value < k < |rows| ==> rows[k].device != device
  {
    if rows != [] && rows[|rows| - 1].device != device {
      NothingBetween(rows[..|rows| - 1], device);
    }
  }

  /** Persisting the stored text of a device again adds no row, exactly when the text hides no marker. */
  lemma StoredTextIsUnchanged(rows: seq<Row>, c: Call, again: Call)
    requires c.success && again.success && again.device == c.device && again.text == Normalize(c.text)
    requires forall i :: 0 <= i < |rows| ==> rows[i].at < c.at
    ensures Persist(Persist(rows, c), again) == Persist(rows, c) <==> !HidesMarker(c.text)
  {
    hide Normalize, HidesMarker, Latest;
    NormalizeIdempotent(c.text);
    if Persist(rows, c) != rows {
      LatestIsNew(rows, RowFor(c, Latest(rows, c.device)));
    }
  }

  lemma LatestIsNew(rows: seq<Row>, row: Row)
    requires forall i :: 0 <= i < |rows| ==> rows[i].at < row.at
    ensures Latest(rows + [row], row.device) == Some(|rows|)
  {
    var after := rows + [row];
    assert after[..|rows|] == rows;
    assert forall i :: 0 <= i < |rows| ==> after[i] == rows[i];
  }
}
