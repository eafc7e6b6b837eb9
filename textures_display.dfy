/** The display-side logic of `src/parseTextures/TexturesDisplay.tsx` that
    is not a rendering concern: the text handed to `parseTextures` for the
    selected discipline, the derived `ShortName` and `isSameSize` fields
    (with `compareSizes`), and the sort-state cycle of `handleSort`. */
module TexturesDisplay {
  import opened Wrappers
  import opened Text
  import opened Disciplines
  import opened TexturesData

  // ---------------------------------------------------------------------
  // The parser's input
  // ---------------------------------------------------------------------

  /** `lines.slice(1)`. */
  function Tail(lines: seq<string>): seq<string> {
    if |lines| == 0 then [] else lines[1..]
  }

  /** `Object.values(r).flatMap((lines) => lines.slice(1))`. */
  function FlatTails(r: Record): seq<string> {
    if |r| == 0 then [] else FlatTails(r[..|r| - 1]) + Tail(r[|r| - 1].1)
  }

  /** `Object.values(r).find((v) => v.length > 0)`, as a position. */
  function FirstNonEmpty(r: Record, from: nat): (k: Option<nat>)
    requires from <= |r|
    ensures k.Some? ==> from <= k.value < |r| && r[k.value].1 != []
    ensures forall j :: from <= j < |r| && (k.None? || j < k.value) ==> r[j].1 == []
    decreases |r| - from
  {
    if from == |r| then None
    else if r[from].1 != [] then Some(from)
    else FirstNonEmpty(r, from + 1)
  }

  /** `headerLine`: the first line of the first non-empty section for
      `All`, of the selected section otherwise, or "" without one. */
  function HeaderLine(r: Record, selected: string): string {
    if selected == AllDisciplines then
      match FirstNonEmpty(r, 0)
      case Some(k) => r[k].1[0]
      case None => ""
    else
      var section := SectionOf(r, selected);
      if |section| > 0 then section[0] else ""
  }

  /** `bodyLines`: every section without its first line for `All`, the
      selected section without its first line otherwise. */
  function BodyLines(r: Record, selected: string): seq<string> {
    if selected == AllDisciplines then FlatTails(r) else Tail(SectionOf(r, selected))
  }

  /** `data`: the header line and the body lines joined by line breaks, or
      "" when the selection has no lines. */
  function ParserInput(r: Record, selected: string): string {
    if |SelectedLines(r, selected)| > 0 then
      Join([HeaderLine(r, selected)] + BodyLines(r, selected), '\n')
    else ""
  }

  /** No stored line holds a line break (true of every parsed record). */
  ghost predicate LinesClean(r: Record) {
    forall k, l :: 0 <= k < |r| && l in r[k].1 ==> '\n' !in l
  }

  lemma {:induction false} FlattenEmpty(r: Record)
    requires forall k :: 0 <= k < |r| ==> r[k].1 == []
    ensures Flatten(r) == []
  {
    if |r| > 0 {
      FlattenEmpty(r[..|r| - 1]);
    }
  }

  lemma {:induction false} FlatTailsFrom(r: Record)
    ensures forall l :: l in FlatTails(r) ==> exists k :: 0 <= k < |r| && l in r[k].1
  {
    if |r| > 0 {
      var pre := r[..|r| - 1];
      FlatTailsFrom(pre);
      forall l | l in FlatTails(r) ensures exists k :: 0 <= k < |r| && l in r[k].1 {
        if l in FlatTails(pre) {
          var k :| 0 <= k < |pre| && l in pre[k].1;
          assert r[k] == pre[k];
        } else {
          assert l in r[|r| - 1].1;
        }
      }
    }
  }

  /** For `All`, the parser reads the first line of the first non-empty
      section as its header, then every section's lines but its first (so
      the other sections' header lines are dropped). */
  lemma AllInputLines(r: Record)
    requires LinesClean(r)
    requires Flatten(r) != []
    ensures FirstNonEmpty(r, 0).Some?
    ensures Split(ParserInput(r, AllDisciplines), '\n') ==
      [r[FirstNonEmpty(r, 0).value].1[0]] + FlatTails(r)
  {
    if FirstNonEmpty(r, 0).None? {
      FlattenEmpty(r);
    }
    var k := FirstNonEmpty(r, 0).value;
    var parts := [r[k].1[0]] + FlatTails(r);
    FlatTailsFrom(r);
    assert r[k].1[0] in r[k].1;
    forall i | 0 <= i < |parts| ensures '\n' !in parts[i] {
      if i > 0 {
        assert parts[i] in FlatTails(r);
      }
    }
    SplitJoin(parts, '\n');
  }

  /** For one discipline, the parser reads exactly that section's lines. */
  lemma OneDisciplineInput(r: Record, selected: string)
    requires LinesClean(r)
    requires selected != AllDisciplines && SectionOf(r, selected) != []
    ensures Split(ParserInput(r, selected), '\n') == SectionOf(r, selected)
  {
    var section := SectionOf(r, selected);
    var k := SectionIndex(r, selected).value;
    assert [section[0]] + section[1..] == section;
    forall i | 0 <= i < |section| ensures '\n' !in section[i] {
      assert section[i] in r[k].1;
    }
    SplitJoin(section, '\n');
  }

  /** A selection without lines hands "" to the parser, which yields no
      rows. */
  lemma NothingSelectedNoRows(r: Record, selected: string, mode: FilterMode, selectedGroups: seq<string>)
    requires SelectedLines(r, selected) == []
    ensures ParserInput(r, selected) == ""
    ensures Parsed(ParserInput(r, selected), mode, selectedGroups) == []
  {
    EmptyInputNoRows(mode, selectedGroups);
  }

  /** Every record the splitter produces is clean, so the two lemmas above
      apply to it. */
  lemma DisciplinesClean(data: string)
    ensures LinesClean(ParsedDisciplines(data))
  {
    DisciplinesWellFormed(data);
  }

  // ---------------------------------------------------------------------
  // compareSizes
  // ---------------------------------------------------------------------

  /** `/(\d+)x(\d+)/` anchored at `i`: digits, a lower-case `x` right after
      them, and digits right after it. */
  function StrictSizeAt(s: string, i: nat): Option<(nat, nat)>
    requires i <= |s|
  {
    var j := DigitEnd(s, i);
    if j == i || j == |s| || s[j] != 'x' then None
    else
      var n := DigitEnd(s, j + 1);
      if n == j + 1 then None
      else Some((DecimalValue(s[i..j]), DecimalValue(s[j + 1..n])))
  }

  /** The leftmost match at or after `i`. */
  function StrictSizeFrom(s: string, i: nat): Option<(nat, nat)>
    requires i <= |s|
    decreases |s| - i
  {
    if StrictSizeAt(s, i).Some? then StrictSizeAt(s, i)
    else if i == |s| then None
    else StrictSizeFrom(s, i + 1)
  }

  /** `s.match(/(\d+)x(\d+)/)`, read as two numbers. */
  function StrictSize(s: string): Option<(nat, nat)> {
    StrictSizeFrom(s, 0)
  }

  /** Inside a digit run the strict pattern matches where it matches at the
      run's start. */
  lemma StrictSizeInsideRun(s: string, i: nat)
    requires 0 < i < |s| && IsDigit(s[i - 1]) && IsDigit(s[i])
    ensures StrictSizeAt(s, i - 1).Some? == StrictSizeAt(s, i).Some?
  {
    assert DigitEnd(s, i - 1) == DigitEnd(s, i);
  }

  lemma {:induction false} StrictSizeFromFinds(s: string, i: nat) returns (p: nat)
    requires i <= |s|
    requires StrictSizeFrom(s, i).Some?
    ensures i <= p < |s| && StrictSizeAt(s, p) == StrictSizeFrom(s, i)
    ensures forall q :: i <= q < p ==> StrictSizeAt(s, q).None?
    decreases |s| - i
  {
    if StrictSizeAt(s, i).Some? {
      p := i;
      assert DigitEnd(s, i) > i;
    } else {
      p := StrictSizeFromFinds(s, i + 1);
      forall q | i <= q < p
        ensures StrictSizeAt(s, q).None?
      {
        if q > i {
          assert i + 1 <= q;
        }
      }
    }
  }

  /** The strictly matched width is a whole maximal digit run: the match
      starts at the beginning of a run, no earlier position matches, and the
      match is what the anchored pattern gives there. */
  lemma StrictSizeAtRunStart(s: string) returns (p: nat)
    requires StrictSize(s).Some?
    ensures p < |s| && IsDigit(s[p]) && (p == 0 || !IsDigit(s[p - 1]))
    ensures StrictSizeAt(s, p) == StrictSize(s)
    ensures forall q :: 0 <= q < p ==> StrictSizeAt(s, q).None?
  {
    p := StrictSizeFromFinds(s, 0);
    assert DigitEnd(s, p) > p;
    if p > 0 && IsDigit(s[p - 1]) {
      StrictSizeInsideRun(s, p);
      assert false;
    }
  }

  /** `compareSizes(size1, size2)`. */
  function CompareSizes(size1: string, size2: string): (same: bool)
    ensures same ==> StrictSize(size1).Some? && StrictSize(size2).Some?
  {
    match (StrictSize(size1), StrictSize(size2))
    case (Some(a), Some(b)) => a == b
    case _ => false
  }

  /** The comparison does not depend on the order of its arguments. */
  lemma CompareSizesSymmetric(size1: string, size2: string)
    ensures CompareSizes(size1, size2) == CompareSizes(size2, size1)
  {
  }

  /** `W` `x` `H` with nothing in between. */
  function WrittenSize(w: nat, h: nat): string {
    DecimalString(w) + "x" + DecimalString(h)
  }

  lemma StrictSizeWritten(w: nat, h: nat)
    ensures StrictSize(WrittenSize(w, h)) == Some((w, h))
  {
    var dw, dh := DecimalString(w), DecimalString(h);
    var s := WrittenSize(w, h);
    var j := |dw|;
    assert DigitEnd(s, 0) == j by {
      assert s[j] == 'x';
      DigitEndIs(s, 0, j);
    }
    assert DigitEnd(s, j + 1) == |s| by {
      DigitEndIs(s, j + 1, |s|);
    }
    assert s[0..j] == dw;
    assert s[j + 1..|s|] == dh;
  }

  /** Two sizes written as `WxH` compare equal exactly when both numbers
      agree. */
  lemma CompareWrittenSizes(w1: nat, h1: nat, w2: nat, h2: nat)
    ensures CompareSizes(WrittenSize(w1, h1), WrittenSize(w2, h2)) <==> w1 == w2 && h1 == h2
  {
    StrictSizeWritten(w1, h1);
    StrictSizeWritten(w2, h2);
  }

  /** No `x` right after a digit: the strict pattern cannot match. */
  lemma {:induction false} NoStrictMatch(s: string, i: nat)
    requires i <= |s|
    requires forall q :: 0 < q < |s| && s[q] == 'x' ==> !IsDigit(s[q - 1])
    ensures StrictSizeFrom(s, i) == None
    decreases |s| - i
  {
    if i < |s| {
      NoStrictMatch(s, i + 1);
    }
  }

  /** A size written with spaces around the `x` (`256 x 256`) passes the
      parser's size pattern with its numbers, but never compares equal to
      anything. */
  lemma SpacedSizeNeverSame(w: nat, h: nat, other: string)
    ensures ParseSize(DecimalString(w) + " " + ['x'] + " " + DecimalString(h)) == Some((w, h))
    ensures !CompareSizes(other, DecimalString(w) + " x " + DecimalString(h))
    ensures !CompareSizes(DecimalString(w) + " x " + DecimalString(h), other)
  {
    ParseSizeRoundTrip(w, h, " ", 'x', " ");
    var dw, dh := DecimalString(w), DecimalString(h);
    var s := dw + " x " + dh;
    forall q | 0 < q < |s| && s[q] == 'x' ensures !IsDigit(s[q - 1]) {
      assert q == |dw| + 1;
    }
    NoStrictMatch(s, 0);
  }

  // ---------------------------------------------------------------------
  // Derived fields
  // ---------------------------------------------------------------------

  /** `fullPath.split("/").pop()?.split(".")[0]`: the last `/` segment of
      the path, up to its first `.`. */
  function ShortName(fullPath: string): string {
    var segments := Split(fullPath, '/');
    Split(segments[|segments| - 1], '.')[0]
  }

  /** The short name sits in the path after its last `/` and is followed by
      nothing or by a `.`. */
  lemma ShortNameParts(fullPath: string) returns (pre: string, post: string)
    ensures fullPath == pre + ShortName(fullPath) + post
    ensures pre == [] || pre[|pre| - 1] == '/'
    ensures '/' !in ShortName(fullPath) && '/' !in post
    ensures '.' !in ShortName(fullPath)
    ensures post == [] || post[0] == '.'
  {
    var segments := Split(fullPath, '/');
    var last := segments[|segments| - 1];
    pre := SplitLastPiece(fullPath, '/');
    var short := ShortName(fullPath);
    SplitFirstPiece(last, '.');
    post := last[|short|..];
    assert last == short + post;
    assert '/' !in post by {
      assert forall q :: 0 <= q < |post| ==> post[q] == last[|short| + q];
    }
  }

  /** ... and only the short name does: any split of the path of that shape
      has the short name in the middle. */
  lemma ShortNameUnique(fullPath: string, pre: string, short: string, post: string)
    requires fullPath == pre + short + post
    requires pre == [] || pre[|pre| - 1] == '/'
    requires '/' !in short && '/' !in post
    requires '.' !in short
    requires post == [] || post[0] == '.'
    ensures short == ShortName(fullPath)
  {
    var pre2, post2 := ShortNameParts(fullPath);
    var short2 := ShortName(fullPath);
    NoLaterSlash(fullPath, pre, short + post, pre2);
    NoLaterSlash(fullPath, pre2, short2 + post2, pre);
    assert pre == fullPath[..|pre|] == pre2;
    var rest := fullPath[|pre|..];
    assert rest == short + post && rest == short2 + post2;
    NoEarlierDot(rest, short, post, short2);
    NoEarlierDot(rest, short2, post2, short);
    assert short == rest[..|short|] == short2;
  }

  /** `a` ends at the first `.` of `rest` (or at its end), so no prefix
      without a `.` is longer. */
  lemma NoEarlierDot(rest: string, a: string, p: string, b: string)
    requires rest == a + p && b <= rest
    requires p == [] || p[0] == '.'
    requires '.' !in b
    ensures |b| <= |a|
  {
    assert forall i :: 0 <= i < |b| ==> rest[i] == b[i] && rest[i] != '.';
    assert |a| < |rest| ==> rest[|a|] == p[0] == '.';
  }

  /** `pre` ends at the last `/` of `path` (or is empty), so no prefix
      ending with a `/` is longer. */
  lemma NoLaterSlash(path: string, pre: string, m: string, pre2: string)
    requires path == pre + m && pre2 <= path
    requires '/' !in m
    requires pre2 == [] || pre2[|pre2| - 1] == '/'
    ensures |pre2| <= |pre|
  {
    assert forall i :: |pre| <= i < |path| ==> path[i] == m[i - |pre|] && path[i] != '/';
    assert |pre2| > 0 ==> path[|pre2| - 1] == pre2[|pre2| - 1] == '/';
  }

  /** `String(texture[key])`: a missing field reads as "undefined". */
  function FieldText(fields: map<string, string>, key: string): string {
    if key in fields then fields[key] else "undefined"
  }

  predicate IsInMemHeader(h: string) {
    Contains(ToLower(h), "inmem")
  }

  /** `inMemKey`: the first header whose lower-case form holds `inmem`. */
  function InMemKey(headers: seq<string>): (r: Option<string>)
    ensures r.Some? ==> r.value in headers && IsInMemHeader(r.value)
    ensures r.None? ==> forall h :: h in headers ==> !IsInMemHeader(h)
    ensures r.Some? ==> exists i :: 0 <= i < |headers| && headers[i] == r.value && (forall j :: 0 <= j < i ==> !IsInMemHeader(headers[j]))
  {
    if |headers| == 0 then None
    else if IsInMemHeader(headers[0]) then Some(headers[0])
    else
      var r := InMemKey(headers[1..]);
      assert r.Some? ==> exists i :: 0 <= i < |headers| && headers[i] == r.value && (forall j :: 0 <= j < i ==> !IsInMemHeader(headers[j])) by {
        if r.Some? {
          var i :| 0 <= i < |headers[1..]| && headers[1..][i] == r.value &&
            (forall j :: 0 <= j < i ==> !IsInMemHeader(headers[1..][j]));
          assert headers[i + 1] == r.value;
          forall j | 0 <= j < i + 1 ensures !IsInMemHeader(headers[j]) {
            if j > 0 {
              assert headers[j] == headers[1..][j - 1];
            }
          }
        }
      }
      r
  }

  /** A displayed row: the parsed fields with `ShortName` set, the columns,
      and `isSameSize`. */
  datatype DisplayRow = DisplayRow(fields: map<string, string>, columns: seq<string>, isSameSize: bool)

  /** `cookedSize` and `inMemSize`, compared. */
  function IsSameSize(headers: seq<string>, t: Texture): bool {
    var cooked := match CookedKey(headers) case Some(k) => FieldText(t.fields, k) case None => "";
    var inMem := match InMemKey(headers) case Some(k) => FieldText(t.fields, k) case None => "";
    CompareSizes(cooked, inMem)
  }

  /** The `updatedTextures` entry for one parsed row; the source throws when
      the row has no `Name` field. */
  function Display(headers: seq<string>, t: Texture): (d: DisplayRow)
    requires "Name" in t.fields
    ensures d.fields.Keys == t.fields.Keys + {"ShortName"}
    ensures d.fields["ShortName"] == ShortName(t.fields["Name"])
    ensures forall k :: k in t.fields && k != "ShortName" ==> d.fields[k] == t.fields[k]
    ensures d.columns == t.columns
  {
    DisplayRow(t.fields["ShortName" := ShortName(t.fields["Name"])], t.columns, IsSameSize(headers, t))
  }

  /** A row is same-size only when both its cooked and in-memory headers
      exist and both sizes are written `WxH` with equal numbers. */
  lemma SameSizeMeans(headers: seq<string>, t: Texture)
    requires IsSameSize(headers, t)
    ensures CookedKey(headers).Some? && InMemKey(headers).Some?
    ensures var a := StrictSize(FieldText(t.fields, CookedKey(headers).value));
      var b := StrictSize(FieldText(t.fields, InMemKey(headers).value));
      a.Some? && a == b
  {
    assert StrictSize("") == None by {
      NoStrictMatch("", 0);
    }
  }

  function DisplayAll(headers: seq<string>, rows: seq<Texture>): (r: Option<seq<DisplayRow>>)
    ensures r.Some? <==> forall i :: 0 <= i < |rows| ==> "Name" in rows[i].fields
    ensures r.Some? ==> |r.value| == |rows|
    ensures r.Some? ==> forall i :: 0 <= i < |rows| ==> r.value[i] == Display(headers, rows[i])
  {
    if |rows| == 0 then Some([])
    else if "Name" !in rows[0].fields then None
    else match DisplayAll(headers, rows[1..])
      case None => None
      case Some(rest) => Some([Display(headers, rows[0])] + rest)
  }

  /** `filteredTextures` before sorting, with the `headers` the parser
      leaves behind; `None` stands for the `TypeError` of a row without a
      `Name` field. No upload (or an empty one) shows nothing. */
  function FilteredTextures(uploadedData: Option<string>, selectedDiscipline: string, mode: FilterMode,
                            selectedGroups: seq<string>, previousHeaders: seq<string>): Option<seq<DisplayRow>>
  {
    if uploadedData.None? || uploadedData.value == "" then Some([])
    else
      var input := ParserInput(ParsedDisciplines(uploadedData.value), selectedDiscipline);
      DisplayAll(HeadersAfter(input, previousHeaders), Parsed(input, mode, selectedGroups))
  }

  /** Without an upload nothing is shown; otherwise the rows are the parsed
      rows of the selection's input, one displayed row each, in order. */
  lemma FilteredTexturesRows(uploadedData: Option<string>, selectedDiscipline: string, mode: FilterMode,
                             selectedGroups: seq<string>, previousHeaders: seq<string>)
    requires FilteredTextures(uploadedData, selectedDiscipline, mode, selectedGroups, previousHeaders).Some?
    ensures var shown := FilteredTextures(uploadedData, selectedDiscipline, mode, selectedGroups, previousHeaders).value;
      && (uploadedData.None? ==> shown == [])
      && (uploadedData.Some? && uploadedData.value != "" ==>
            var input := ParserInput(ParsedDisciplines(uploadedData.value), selectedDiscipline);
            var parsed := Parsed(input, mode, selectedGroups);
            |shown| == |parsed| &&
            forall i :: 0 <= i < |shown| ==>
              shown[i].columns == parsed[i].columns &&
              shown[i].fields["ShortName"] == ShortName(parsed[i].fields["Name"]))
  {
  }

  // ---------------------------------------------------------------------
  // Sorting state
  // ---------------------------------------------------------------------

  datatype Direction = Asc | Desc

  /** `sortConfig`: a column key and a direction, `None` for `null`. */
  datatype SortConfig = SortConfig(key: string, direction: Option<Direction>)

  const InitialSort: SortConfig := SortConfig("", None)

  /** `handleSort(column)` applied to `prev`. */
  function HandleSort(prev: SortConfig, column: string): SortConfig {
    if prev.key == column then
      SortConfig(column,
        match prev.direction
        case Some(Asc) => Some(Desc)
        case Some(Desc) => None
        case None => Some(Asc))
    else SortConfig(column, Some(Asc))
  }

  /** `sortConfig.key && sortConfig.direction`: rows are reordered only then. */
  predicate SortApplies(c: SortConfig) {
    c.key != "" && c.direction.Some?
  }

  /** Clicking the sorted column three times in a row returns to where it
      started; a new column starts at ascending and returns to it after
      four clicks. */
  lemma SortCycle(prev: SortConfig, column: string)
    ensures prev.key == column ==>
      HandleSort(HandleSort(HandleSort(prev, column), column), column) == prev
    ensures prev.key != column ==> HandleSort(prev, column) == SortConfig(column, Some(Asc))
    ensures var once := HandleSort(prev, column);
      HandleSort(HandleSort(HandleSort(once, column), column), column) == once
  {
  }

  /** After a click on a named column the rows are reordered, except on the
      click that clears a descending sort of that column; the initial state
      and clicks on an unnamed column never reorder. */
  lemma SortAppliesAfterClick(prev: SortConfig, column: string)
    ensures column != "" ==>
      (SortApplies(HandleSort(prev, column)) <==> !(prev.key == column && prev.direction == Some(Desc)))
    ensures !SortApplies(HandleSort(prev, ""))
    ensures !SortApplies(InitialSort)
  {
  }
}
