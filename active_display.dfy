/** Display detection (src/system/activeDisplay.ts): the `xrandr --query` line scanner, the
    registry with its deterministic fallback, the `KEY=VALUE` cursor parser, the ownership rule
    and the polling watcher that emits a change only when the owning display changes.
    External commands are inputs: their standard output, or the fact that they failed. */
module ActiveDisplay {
  import opened Base
  import opened Text

  datatype DisplayInfo = DisplayInfo(
    index: int,
    positionX: int,
    positionY: int,
    width: int,
    height: int,
    main: bool,
    name: Option<string>,
    id: Option<string>)

  datatype CursorPosition = CursorPosition(x: int, y: int)

  // =======================================================================================
  // xrandr line grammar:  ^(\S+)\s+connected\s+(primary\s+)?(\d+)x(\d+)\+(\d+)\+(\d+)

  /** The part of a matching line from the first digit group on: the four digit groups and
      whatever follows the last one. */
  datatype Geometry = Geometry(width: string, height: string, x: string, y: string, rest: string)

  /** How a matching line decomposes: the name group, the whitespace runs, the optional
      `primary` marker with the whitespace after it, and the geometry. */
  datatype XrandrLayout = XrandrLayout(
    name: string,
    gap1: string,
    gap2: string,
    primaryGap: Option<string>,
    geometry: Geometry)

  predicate WellFormedGeometry(g: Geometry) {
    && |g.width| > 0 && AllIn(g.width, Digit)
    && |g.height| > 0 && AllIn(g.height, Digit)
    && |g.x| > 0 && AllIn(g.x, Digit)
    && |g.y| > 0 && AllIn(g.y, Digit)
    // the last `\d+` is greedy
    && (g.rest == [] || !IsDigit(g.rest[0]))
  }

  predicate WellFormedLayout(l: XrandrLayout) {
    && |l.name| > 0 && AllIn(l.name, NonSpace)
    && |l.gap1| > 0 && AllIn(l.gap1, Space)
    && |l.gap2| > 0 && AllIn(l.gap2, Space)
    && (l.primaryGap.Some? ==> |l.primaryGap.value| > 0 && AllIn(l.primaryGap.value, Space))
    && WellFormedGeometry(l.geometry)
  }

  function GeometryText(g: Geometry): string {
    g.width + ("x" + (g.height + ("+" + (g.x + ("+" + (g.y + g.rest))))))
  }

  function PrimaryText(primaryGap: Option<string>): string {
    match primaryGap
    case None => ""
    case Some(g) => "primary" + g
  }

  /** The line a layout stands for. */
  function LayoutText(l: XrandrLayout): string {
    l.name + (l.gap1 + ("connected" + (l.gap2 + (PrimaryText(l.primaryGap) + GeometryText(l.geometry)))))
  }

  /** A greedy run of class `k` at the start of `s`, and what follows it. */
  function Run(s: string, k: CharClass): (r: (string, string))
    ensures s == r.0 + r.1
    ensures AllIn(r.0, k) && (r.1 == [] || !InClass(r.1[0], k))
  {
    var n := Span(s, k);
    assert s == s[..n] + s[n..];
    (s[..n], s[n..])
  }

  lemma RunOf(a: string, b: string, k: CharClass)
    requires AllIn(a, k) && (b == [] || !InClass(b[0], k))
    ensures Run(a + b, k) == (a, b)
  {
    SpanOfRun(a, b, k);
    assert (a + b)[..|a|] == a && (a + b)[|a|..] == b;
  }

  /** `\d+` followed by the literal `term`: the digits and what follows the terminator. */
  function DigitsThen(s: string, term: char): (r: Option<(string, string)>)
    requires !IsDigit(term)
    ensures r.Some? ==> |r.value.0| > 0 && AllIn(r.value.0, Digit) && s == r.value.0 + ([term] + r.value.1)
  {
    var (d, after) := Run(s, Digit);
    if d == [] || after == [] || after[0] != term then None
    else
      assert after == [term] + after[1..];
      Some((d, after[1..]))
  }

  lemma DigitsThenOf(d: string, term: char, after: string)
    requires |d| > 0 && AllIn(d, Digit) && !IsDigit(term)
    ensures DigitsThen(d + ([term] + after), term) == Some((d, after))
  {
    RunOf(d, [term] + after, Digit);
    assert ([term] + after)[1..] == after;
  }

  /** `(\d+)x(\d+)\+(\d+)\+(\d+)` at the start of `s`. */
  function ScanGeometry(s: string): (r: Option<Geometry>)
    ensures r.Some? ==> WellFormedGeometry(r.value) && GeometryText(r.value) == s
  {
    match DigitsThen(s, 'x')
    case None => None
    case Some((w, s1)) =>
      match DigitsThen(s1, '+')
      case None => None
      case Some((h, s2)) =>
        match DigitsThen(s2, '+')
        case None => None
        case Some((x, s3)) =>
          var (y, rest) := Run(s3, Digit);
          if y == [] then None else Some(Geometry(w, h, x, y, rest))
  }

  lemma ScanGeometryComplete(g: Geometry)
    requires WellFormedGeometry(g)
    ensures ScanGeometry(GeometryText(g)) == Some(g)
  {
    DigitsThenOf(g.width, 'x', g.height + ("+" + (g.x + ("+" + (g.y + g.rest)))));
    DigitsThenOf(g.height, '+', g.x + ("+" + (g.y + g.rest)));
    DigitsThenOf(g.x, '+', g.y + g.rest);
    RunOf(g.y, g.rest, Digit);
  }

  /** `(primary\s+)?`: the marker with the whitespace after it, if present, and what follows. */
  function ScanPrimary(s: string): (r: (Option<string>, string))
    ensures s == PrimaryText(r.0) + r.1
    ensures r.0.Some? ==> |r.0.value| > 0 && AllIn(r.0.value, Space)
  {
    if !StartsWith(s, "primary") then (None, s)
    else
      var (gap, after) := Run(s[7..], Space);
      if gap == [] then (None, s)
      else
        assert s == "primary" + (gap + after) by { assert s == s[..7] + s[7..]; }
        assert "primary" + (gap + after) == ("primary" + gap) + after;
        (Some(gap), after)
  }

  /** With the marker: `primary`, its whitespace run, then text starting with a digit. */
  lemma ScanPrimaryMarked(gap: string, rest: string)
    requires |gap| > 0 && AllIn(gap, Space)
    requires rest != [] && IsDigit(rest[0])
    ensures ScanPrimary("primary" + gap + rest) == (Some(gap), rest)
  {
    var tail := gap + rest;
    var s := "primary" + tail;
    assert s == "primary" + gap + rest;
    assert s[..7] == "primary" && s[7..] == tail;
    assert !IsSpace(rest[0]);
    RunOf(gap, rest, Space);
  }

  /** Without the marker the text is left as it is. */
  lemma ScanPrimaryUnmarked(rest: string)
    requires rest != [] && IsDigit(rest[0])
    ensures ScanPrimary(rest) == (None, rest)
  {
    assert !StartsWith(rest, "primary") by { assert rest[0] != 'p'; }
  }

  lemma ScanPrimaryOf(primaryGap: Option<string>, g: Geometry)
    requires primaryGap.Some? ==> |primaryGap.value| > 0 && AllIn(primaryGap.value, Space)
    requires WellFormedGeometry(g)
    ensures ScanPrimary(PrimaryText(primaryGap) + GeometryText(g)) == (primaryGap, GeometryText(g))
  {
    var geometry := GeometryText(g);
    assert geometry[0] == g.width[0];
    if primaryGap.Some? {
      ScanPrimaryMarked(primaryGap.value, geometry);
    } else {
      assert PrimaryText(primaryGap) + geometry == geometry;
      ScanPrimaryUnmarked(geometry);
    }
  }

  /** `^(\S+)\s+connected`: the name, the whitespace after it, and what follows `connected`.
      Backtracking cannot help either greedy run: a shorter name is followed by a non-space,
      and a shorter gap by a space where `c` is needed. */
  function ScanHead(line: string): (r: Option<(string, string, string)>)
    ensures r.Some? ==>
      && |r.value.0| > 0 && AllIn(r.value.0, NonSpace)
      && |r.value.1| > 0 && AllIn(r.value.1, Space)
      && line == r.value.0 + (r.value.1 + ("connected" + r.value.2))
  {
    var (name, s1) := Run(line, NonSpace);
    var (gap1, s2) := Run(s1, Space);
    if name == [] || gap1 == [] || !StartsWith(s2, "connected") then None
    else
      assert s2 == "connected" + s2[9..] by { assert s2 == s2[..9] + s2[9..]; }
      Some((name, gap1, s2[9..]))
  }

  lemma ScanHeadOf(name: string, gap1: string, rest: string)
    requires |name| > 0 && AllIn(name, NonSpace) && |gap1| > 0 && AllIn(gap1, Space)
    ensures ScanHead(name + (gap1 + ("connected" + rest))) == Some((name, gap1, rest))
  {
    var s2 := "connected" + rest;
    assert (gap1 + s2)[0] == gap1[0];
    RunOf(name, gap1 + s2, NonSpace);
    assert s2[0] == 'c';
    RunOf(gap1, s2, Space);
    assert s2[..9] == "connected";
    assert s2[9..] == rest;
  }

  /** `\s+(primary\s+)?(\d+)x(\d+)\+(\d+)\+(\d+)` after `connected`: the gap, the optional
      marker's whitespace, and the geometry. */
  function ScanTail(s: string): (r: Option<(string, Option<string>, Geometry)>)
    ensures r.Some? ==>
      && |r.value.0| > 0 && AllIn(r.value.0, Space)
      && (r.value.1.Some? ==> |r.value.1.value| > 0 && AllIn(r.value.1.value, Space))
      && WellFormedGeometry(r.value.2)
      && s == r.value.0 + (PrimaryText(r.value.1) + GeometryText(r.value.2))
  {
    var (gap2, s3) := Run(s, Space);
    var (primaryGap, s4) := ScanPrimary(s3);
    if gap2 == [] then None
    else match ScanGeometry(s4)
      case None => None
      case Some(g) => Some((gap2, primaryGap, g))
  }

  lemma ScanTailOf(gap2: string, primaryGap: Option<string>, g: Geometry)
    requires |gap2| > 0 && AllIn(gap2, Space)
    requires primaryGap.Some? ==> |primaryGap.value| > 0 && AllIn(primaryGap.value, Space)
    requires WellFormedGeometry(g)
    ensures ScanTail(gap2 + (PrimaryText(primaryGap) + GeometryText(g))) == Some((gap2, primaryGap, g))
  {
    var s3 := PrimaryText(primaryGap) + GeometryText(g);
    ScanPrimaryOf(primaryGap, g);
    assert GeometryText(g)[0] == g.width[0];
    assert s3[0] == 'p' || IsDigit(s3[0]);
    RunOf(gap2, s3, Space);
    ScanGeometryComplete(g);
  }

  /** The hand-written matcher for one line of `xrandr --query` output: every line it accepts
      is exactly the text of the layout it reports. */
  function ScanXrandrLine(line: string): (r: Option<XrandrLayout>)
    ensures r.Some? ==> WellFormedLayout(r.value) && LayoutText(r.value) == line
  {
    match ScanHead(line)
    case None => None
    case Some((name, gap1, rest)) =>
      match ScanTail(rest)
      case None => None
      case Some((gap2, primaryGap, g)) => Some(XrandrLayout(name, gap1, gap2, primaryGap, g))
  }

  /** Every well-formed layout is matched, and the matcher recovers exactly its parts. */
  lemma ScanComplete(l: XrandrLayout)
    requires WellFormedLayout(l)
    ensures ScanXrandrLine(LayoutText(l)) == Some(l)
  {
    var rest := l.gap2 + (PrimaryText(l.primaryGap) + GeometryText(l.geometry));
    ScanHeadOf(l.name, l.gap1, rest);
    ScanTailOf(l.gap2, l.primaryGap, l.geometry);
  }

  // =======================================================================================
  // parseXrandr

  /** The layouts of the matching lines, in line order. */
  function Matches(lines: seq<string>): seq<XrandrLayout> {
    FilterMap(lines, ScanXrandrLine)
  }

  lemma MatchesWellFormed(lines: seq<string>)
    ensures forall k :: 0 <= k < |Matches(lines)| ==> WellFormedLayout(Matches(lines)[k])
  {
    forall k | 0 <= k < |Matches(lines)| ensures WellFormedLayout(Matches(lines)[k]) {
      FilterMapSource(lines, ScanXrandrLine, k);
    }
  }

  /** The display a matching line contributes when it is the `index`-th match. */
  function ToDisplay(l: XrandrLayout, index: nat): DisplayInfo
    requires WellFormedLayout(l)
  {
    var g := l.geometry;
    DisplayInfo(index, DigitsValue(g.x), DigitsValue(g.y), DigitsValue(g.width), DigitsValue(g.height),
                l.primaryGap.Some?, Some(l.name), Some(l.name))
  }

  /** The displays contributed by a list of matches, numbered in order. */
  function DisplaysOf(ms: seq<XrandrLayout>): seq<DisplayInfo>
    requires forall k :: 0 <= k < |ms| ==> WellFormedLayout(ms[k])
  {
    seq(|ms|, k requires 0 <= k < |ms| => ToDisplay(ms[k], k))
  }

  lemma DisplaysOfAppend(ms: seq<XrandrLayout>, l: XrandrLayout)
    requires forall k :: 0 <= k < |ms| ==> WellFormedLayout(ms[k])
    requires WellFormedLayout(l)
    ensures DisplaysOf(ms + [l]) == DisplaysOf(ms) + [ToDisplay(l, |ms|)]
  {
    var ext := ms + [l];
    assert forall k :: 0 <= k < |ms| ==> ext[k] == ms[k];
  }

  /** What `parseXrandr` returns for the given lines. */
  function XrandrDisplays(lines: seq<string>): seq<DisplayInfo> {
    MatchesWellFormed(lines);
    DisplaysOf(Matches(lines))
  }

  /** One more line extends the parse by that line's display, numbered after those before it. */
  lemma XrandrDisplaysStep(lines: seq<string>, i: nat)
    requires i < |lines|
    ensures XrandrDisplays(lines[..i + 1]) ==
      XrandrDisplays(lines[..i]) + match ScanXrandrLine(lines[i])
        case None => []
        case Some(l) => [ToDisplay(l, |XrandrDisplays(lines[..i])|)]
  {
    FilterMapStep(lines, ScanXrandrLine, i);
    var before := Matches(lines[..i]);
    MatchesWellFormed(lines[..i]);
    MatchesWellFormed(lines[..i + 1]);
    var m := ScanXrandrLine(lines[i]);
    if m.Some? {
      assert Matches(lines[..i + 1]) == before + [m.value];
      DisplaysOfAppend(before, m.value);
    } else {
      assert Matches(lines[..i + 1]) == before;
    }
  }

  /** `parseXrandr`: split stdout on newlines and push one display per matching line. */
  method ParseXrandr(output: string) returns (displays: seq<DisplayInfo>)
    ensures displays == XrandrDisplays(Split(output, '\n'))
  {
    var lines := Split(output, '\n');
    displays := [];
    for i := 0 to |lines|
      invariant displays == XrandrDisplays(lines[..i])
    {
      XrandrDisplaysStep(lines, i);
      var m := ScanXrandrLine(lines[i]);
      if m.Some? {
        displays := displays + [ToDisplay(m.value, |displays|)];
      }
    }
    assert lines[..|lines|] == lines;
  }

  /** The line at position j, when it matches, gives the display whose index is the number of
      matching lines before it, with main, name, id and geometry taken from that line. */
  lemma XrandrDisplayOfLine(lines: seq<string>, j: nat)
    requires j < |lines|
    ensures ScanXrandrLine(lines[j]).Some? ==>
      var k := |XrandrDisplays(lines[..j])|;
      k < |XrandrDisplays(lines)|
      && XrandrDisplays(lines)[k] == ToDisplay(ScanXrandrLine(lines[j]).value, k)
      && XrandrDisplays(lines)[k].index == k
  {
    if ScanXrandrLine(lines[j]).Some? {
      FilterMapAt(lines, ScanXrandrLine, j);
      MatchesWellFormed(lines);
      MatchesWellFormed(lines[..j]);
    }
  }

  /** Conversely, every parsed display comes from a matching line: display k is the k-th match. */
  lemma XrandrDisplaySource(lines: seq<string>, k: nat)
    ensures k < |XrandrDisplays(lines)| ==>
      exists j :: (0 <= j < |lines| && ScanXrandrLine(lines[j]).Some? && |XrandrDisplays(lines[..j])| == k
        && XrandrDisplays(lines)[k] == ToDisplay(ScanXrandrLine(lines[j]).value, k))
  {
    MatchesWellFormed(lines);
    if k < |XrandrDisplays(lines)| {
      FilterMapSource(lines, ScanXrandrLine, k);
      var j :| 0 <= j < |lines| && ScanXrandrLine(lines[j]) == Some(Matches(lines)[k]) && |Matches(lines[..j])| == k;
      MatchesWellFormed(lines[..j]);
      assert |XrandrDisplays(lines[..j])| == k;
    }
  }

  /** Zero matching lines, and only then, give an empty list. */
  lemma XrandrEmptyIffNoMatch(lines: seq<string>)
    ensures XrandrDisplays(lines) == [] <==> forall j :: 0 <= j < |lines| ==> ScanXrandrLine(lines[j]).None?
  {
    FilterMapEmpty(lines, ScanXrandrLine);
    MatchesWellFormed(lines);
    assert |XrandrDisplays(lines)| == |Matches(lines)|;
  }

  /** Every parsed display is named by its output's first token: never blank, and id equals name. */
  lemma XrandrNamesNotBlank(lines: seq<string>)
    ensures forall d :: d in XrandrDisplays(lines) ==> d.name.Some? && d.id == d.name && !Blank(d.name.value)
  {
    var ms := Matches(lines);
    MatchesWellFormed(lines);
    forall k | 0 <= k < |ms| ensures !Blank(ms[k].name) {
      BlankIffAllSpace(ms[k].name);
      assert !IsSpace(ms[k].name[0]);
    }
  }

  // =======================================================================================
  // getDisplays

  /** The outcome of running the display-listing command. */
  datatype ListingResult = ListingFailed | ListingOutput(stdout: string)

  const FallbackDisplay: DisplayInfo :=
    DisplayInfo(0, 0, 0, 1920, 1080, true, Some("Display-0"), Some("Display-0"))

  /** What `getDisplays` resolves to. */
  function ListedDisplays(r: ListingResult): seq<DisplayInfo> {
    match r
    case ListingFailed => [FallbackDisplay]
    case ListingOutput(s) =>
      var parsed := XrandrDisplays(Split(s, '\n'));
      if |parsed| > 0 then parsed else [FallbackDisplay]
  }

  /** `getDisplays`: the parse when non-empty, else exactly the single full-HD fallback display. */
  method GetDisplays(r: ListingResult) returns (displays: seq<DisplayInfo>)
    ensures displays == ListedDisplays(r)
  {
    if r.ListingOutput? {
      var parsed := ParseXrandr(r.stdout);
      if |parsed| > 0 {
        return parsed;
      }
    }
    return [FallbackDisplay];
  }

  /** The registry is never empty; it is the fallback when the command failed or no line
      matched, and the parse when some line matched (which may itself equal the fallback). */
  lemma ListedDisplaysFallback(r: ListingResult)
    ensures |ListedDisplays(r)| > 0
    ensures ListedDisplays(r) == [FallbackDisplay] || (r.ListingOutput? && ListedDisplays(r) == XrandrDisplays(Split(r.stdout, '\n')))
    ensures (r.ListingFailed? || forall j :: 0 <= j < |Split(r.stdout, '\n')| ==> ScanXrandrLine(Split(r.stdout, '\n')[j]).None?)
            ==> ListedDisplays(r) == [FallbackDisplay]
    ensures r.ListingOutput? && (exists j :: 0 <= j < |Split(r.stdout, '\n')| && ScanXrandrLine(Split(r.stdout, '\n')[j]).Some?)
            ==> ListedDisplays(r) == XrandrDisplays(Split(r.stdout, '\n'))
  {
    if r.ListingOutput? {
      XrandrEmptyIffNoMatch(Split(r.stdout, '\n'));
    }
  }

  /** Every registry entry carries a non-blank name equal to its id. */
  lemma ListedNamesNotBlank(r: ListingResult)
    ensures forall d :: d in ListedDisplays(r) ==> d.name.Some? && d.id == d.name && !Blank(d.name.value)
  {
    NonSpaceNotBlank("Display-0", 0);
    if r.ListingOutput? {
      XrandrNamesNotBlank(Split(r.stdout, '\n'));
    }
  }

  // =======================================================================================
  // getCursor (text half)

  /** `line.split('=')` destructured as `[k, v]`, kept only when `k` is non-empty and `v` exists. */
  function KeyValue(line: string): Option<(string, string)> {
    var parts := Split(line, '=');
    if |parts| >= 2 && parts[0] != [] then Some((parts[0], parts[1])) else None
  }

  predicate Assigns(line: string, key: string) {
    WritesKey(KeyValue, line, key)
  }

  /** A `KEY=VALUE` line yields that key and value. */
  lemma KeyValueOfAssignment(key: string, value: string)
    requires key != [] && '=' !in key && '=' !in value
    ensures KeyValue(key + "=" + value) == Some((key, value))
  {
    SplitAtSeparator(key, '=', value);
    SplitNoSeparator(value, '=');
  }

  /** A line with no `=` assigns nothing. */
  lemma KeyValueNeedsEquals(line: string)
    requires '=' !in line
    ensures KeyValue(line) == None
  {
    SplitNoSeparator(line, '=');
  }

  /** The `Map` filled by the loop over lines: a later assignment overwrites an earlier one. */
  function ShellVars(lines: seq<string>): map<string, string> {
    Writes(lines, KeyValue)
  }

  /** The lines `getCursor` scans: trimmed stdout split on newlines. */
  function CursorLines(stdout: string): seq<string> {
    Split(Trim(stdout), '\n')
  }

  /** `Number(map.get('X'))` and `Number(map.get('Y'))`, failing when either is NaN. */
  function CursorOf(vars: map<string, string>): Option<CursorPosition> {
    var x := if "X" in vars then JsNumber(vars["X"]) else None;
    var y := if "Y" in vars then JsNumber(vars["Y"]) else None;
    if x.Some? && y.Some? then Some(CursorPosition(x.value, y.value)) else None
  }

  /** The text half of `getCursor`. */
  method ParseCursor(stdout: string) returns (cursor: Option<CursorPosition>)
    ensures cursor == CursorOf(ShellVars(CursorLines(stdout)))
  {
    var lines := CursorLines(stdout);
    var vars: map<string, string> := map[];
    for i := 0 to |lines|
      invariant vars == ShellVars(lines[..i])
    {
      assert lines[..i + 1][..i] == lines[..i];
      match KeyValue(lines[i]) {
        case Some((k, v)) =>
          vars := vars[k := v];
        case None =>
      }
    }
    assert lines[..|lines|] == lines;
    cursor := CursorOf(vars);
  }

  /** `value` is what the last line assigning `key` assigns to it. */
  ghost predicate LastAssignment(lines: seq<string>, key: string, value: string) {
    LastWrite(lines, KeyValue, key, value)
  }

  /** The probe yields a cursor exactly when the last `X` and the last `Y` assignments both
      convert to numbers, and the cursor holds those numbers. */
  lemma CursorFromLastAssignments(lines: seq<string>, c: CursorPosition)
    ensures CursorOf(ShellVars(lines)) == Some(c) <==>
      (exists vx :: LastAssignment(lines, "X", vx) && JsNumber(vx) == Some(c.x))
      && (exists vy :: LastAssignment(lines, "Y", vy) && JsNumber(vy) == Some(c.y))
  {
    var vars := ShellVars(lines);
    if CursorOf(vars) == Some(c) {
      WritesLastWins(lines, KeyValue, "X");
      WritesLastWins(lines, KeyValue, "Y");
      assert LastAssignment(lines, "X", vars["X"]);
      assert LastAssignment(lines, "Y", vars["Y"]);
    }
    if (exists vx :: LastAssignment(lines, "X", vx) && JsNumber(vx) == Some(c.x))
      && (exists vy :: LastAssignment(lines, "Y", vy) && JsNumber(vy) == Some(c.y))
    {
      var vx :| LastAssignment(lines, "X", vx) && JsNumber(vx) == Some(c.x);
      var vy :| LastAssignment(lines, "Y", vy) && JsNumber(vy) == Some(c.y);
      LastWriteIsValue(lines, KeyValue, "X", vx);
      LastWriteIsValue(lines, KeyValue, "Y", vy);
    }
  }

  /** Without any `X=` line the probe fails. */
  lemma CursorNeedsX(lines: seq<string>)
    requires forall j :: 0 <= j < |lines| ==> !Assigns(lines[j], "X")
    ensures CursorOf(ShellVars(lines)) == None
  {
    WritesDomain(lines, KeyValue, "X");
  }

  // =======================================================================================
  // findDisplay

  /** The half-open box `[x, x+w) x [y, y+h)` contains the cursor. */
  predicate ContainsCursor(d: DisplayInfo, c: CursorPosition) {
    d.positionX <= c.x < d.positionX + d.width && d.positionY <= c.y < d.positionY + d.height
  }

  /** Reference rule for display ownership: the first containing display, else the first main
      display, else the first display. */
  ghost predicate Owns(ds: seq<DisplayInfo>, c: CursorPosition, k: int) {
    0 <= k < |ds| &&
    if exists i :: 0 <= i < |ds| && ContainsCursor(ds[i], c) then
      ContainsCursor(ds[k], c) && forall j :: 0 <= j < k ==> !ContainsCursor(ds[j], c)
    else if exists i :: 0 <= i < |ds| && ds[i].main then
      ds[k].main && forall j :: 0 <= j < k ==> !ds[j].main
    else k == 0
  }

  /** `findDisplay`; None stands for the error it throws on an empty list. */
  function FindDisplay(ds: seq<DisplayInfo>, c: CursorPosition): (r: Option<DisplayInfo>)
    ensures r.None? <==> ds == []
    ensures r.Some? ==> exists k :: Owns(ds, c, k) && r.value == ds[k]
  {
    match FindFirst(ds, (d: DisplayInfo) => ContainsCursor(d, c))
    case Some(k) => Some(ds[k])
    case None =>
      match FindFirst(ds, (d: DisplayInfo) => d.main)
      case Some(k) => Some(ds[k])
      case None => if ds == [] then None else Some(ds[0])
  }

  // =======================================================================================
  // ActiveDisplayWatcher

  /** The outcome of running the cursor-position command on one tick. */
  datatype CursorProbe = ProbeFailed | ProbeOutput(stdout: string)

  /** The display one tick resolves to, or None when the probe or the parse fails. */
  function Resolve(displays: seq<DisplayInfo>, probe: CursorProbe): Option<DisplayInfo> {
    match probe
    case ProbeFailed => None
    case ProbeOutput(s) =>
      match CursorOf(ShellVars(CursorLines(s)))
      case None => None
      case Some(c) => FindDisplay(displays, c)
  }

  /** One successful-or-failed tick: the displays it emits and the new `lastDisplayIndex`. */
  function TickStep(last: Option<int>, resolved: Option<DisplayInfo>): (seq<DisplayInfo>, Option<int>) {
    match resolved
    case None => ([], last)
    case Some(d) => if Some(d.index) != last then ([d], Some(d.index)) else ([], last)
  }

  /** The emissions of consecutive ticks, starting from `last`. */
  function Emissions(last: Option<int>, resolved: seq<Option<DisplayInfo>>): seq<DisplayInfo>
    decreases |resolved|
  {
    if resolved == [] then []
    else
      var step := TickStep(last, resolved[0]);
      step.0 + Emissions(step.1, resolved[1..])
  }

  /** `lastDisplayIndex` after consecutive ticks, starting from `last`. */
  function LastAfter(last: Option<int>, resolved: seq<Option<DisplayInfo>>): Option<int>
    decreases |resolved|
  {
    if resolved == [] then last else LastAfter(TickStep(last, resolved[0]).1, resolved[1..])
  }

  /** Debounce: no emission repeats the index before it, and the first differs from `last`;
      every emitted display is one that a tick resolved to. */
  lemma {:induction false} EmissionsChange(last: Option<int>, resolved: seq<Option<DisplayInfo>>)
    ensures var e := Emissions(last, resolved);
      && (e != [] ==> Some(e[0].index) != last)
      && (forall i :: 0 < i < |e| ==> e[i].index != e[i - 1].index)
      && (forall i :: 0 <= i < |e| ==> Some(e[i]) in resolved)
    decreases |resolved|
  {
    if resolved != [] {
      var step := TickStep(last, resolved[0]);
      EmissionsChange(step.1, resolved[1..]);
      var rest := Emissions(step.1, resolved[1..]);
      forall i | 0 <= i < |rest| ensures Some(rest[i]) in resolved {
        assert Some(rest[i]) in resolved[1..];
      }
    }
  }

  /** `lastDisplayIndex` is the index of the last emitted display, or unchanged when nothing was emitted. */
  lemma {:induction false} LastAfterIsLastEmitted(last: Option<int>, resolved: seq<Option<DisplayInfo>>)
    ensures var e := Emissions(last, resolved);
      LastAfter(last, resolved) == if e == [] then last else Some(e[|e| - 1].index)
    decreases |resolved|
  {
    if resolved != [] {
      var step := TickStep(last, resolved[0]);
      LastAfterIsLastEmitted(step.1, resolved[1..]);
    }
  }

  /** With nothing emitted before, the first successful tick emits its display. */
  lemma {:induction false} FirstSuccessEmits(resolved: seq<Option<DisplayInfo>>, k: nat)
    requires k < |resolved| && resolved[k].Some?
    requires forall j :: 0 <= j < k ==> resolved[j].None?
    ensures Emissions(None, resolved) != [] && Emissions(None, resolved)[0] == resolved[k].value
  {
    if k > 0 {
      FirstSuccessEmits(resolved[1..], k - 1);
    }
  }

  /** Ticks resolving to displays 0, 0, 1, 1, 0 emit displays 0, 1, 0. */
  lemma EmissionsExample(d0: DisplayInfo, d1: DisplayInfo)
    requires d0.index == 0 && d1.index == 1
    ensures Emissions(None, [Some(d0), Some(d0), Some(d1), Some(d1), Some(d0)]) == [d0, d1, d0]
  {
    var rs := [Some(d0), Some(d0), Some(d1), Some(d1), Some(d0)];
    assert Emissions(Some(1), rs[4..]) == [d0] by { assert rs[4..][1..] == []; }
    assert Emissions(Some(1), rs[3..]) == [d0] by { assert rs[3..][1..] == rs[4..]; }
    assert Emissions(Some(0), rs[2..]) == [d1, d0] by { assert rs[2..][1..] == rs[3..]; }
    assert Emissions(Some(0), rs[1..]) == [d1, d0] by { assert rs[1..][1..] == rs[2..]; }
  }

  /** The polling watcher. `tickPending` stands for the scheduled timer (or the first tick that
      `start` launches); each call of Tick is that tick running. */
  class ActiveDisplayWatcher {
    const pollInterval: int
    var running: bool
    var tickPending: bool
    var lastDisplayIndex: Option<int>
    var displays: seq<DisplayInfo>

    ghost predicate Valid()
      reads this
    {
      (running ==> |displays| > 0) && tickPending == running
    }

    constructor (pollIntervalMs: Option<int>)
      ensures Valid()
      ensures pollInterval == pollIntervalMs.GetOr(400)
      ensures !running && !tickPending && lastDisplayIndex == None && displays == []
    {
      pollInterval := pollIntervalMs.GetOr(400);
      running := false;
      tickPending := false;
      lastDisplayIndex := None;
      displays := [];
    }

    /** `start`: a no-op when running; otherwise fetch the registry, mark running and launch
        the first tick. `lastDisplayIndex` is kept across a stop and a restart. */
    method Start(listing: ListingResult)
      requires Valid()
      modifies this
      ensures Valid()
      ensures old(running) ==> unchanged(this)
      ensures !old(running) ==> running && tickPending && displays == ListedDisplays(listing)
      ensures lastDisplayIndex == old(lastDisplayIndex)
    {
      if running {
        return;
      }
      running := true;
      displays := GetDisplays(listing);
      assert |displays| > 0 by { ListedDisplaysFallback(listing); }
      tickPending := true;
    }

    /** One tick: when running, probe, resolve, emit on a changed index, and re-arm the timer. */
    method Tick(probe: CursorProbe) returns (emitted: seq<DisplayInfo>)
      requires Valid()
      modifies this
      ensures Valid()
      ensures running == old(running) && displays == old(displays)
      ensures tickPending == running
      ensures !running ==> emitted == [] && lastDisplayIndex == old(lastDisplayIndex)
      ensures running ==> (emitted, lastDisplayIndex) == TickStep(old(lastDisplayIndex), Resolve(displays, probe))
    {
      emitted := [];
      if !running {
        tickPending := false;
        return;
      }
      if probe.ProbeOutput? {
        var cursor := ParseCursor(probe.stdout);
        if cursor.Some? {
          var display := FindDisplay(displays, cursor.value);
          if display.Some? && Some(display.value.index) != lastDisplayIndex {
            lastDisplayIndex := Some(display.value.index);
            emitted := [display.value];
          }
        }
      }
      tickPending := running;
    }

    /** `stop`: clear `running` and cancel the pending timer. */
    method Stop()
      requires Valid()
      modifies this
      ensures Valid()
      ensures !running && !tickPending
      ensures lastDisplayIndex == old(lastDisplayIndex) && displays == old(displays)
    {
      running := false;
      tickPending := false;
    }
  }
}
