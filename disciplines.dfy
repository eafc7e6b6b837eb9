/** The section splitter `parseDisciplines` of
    `src/parseTextures/TexturesDisplay.tsx`: one pass over the report's lines
    that collects each discipline's listing (a header line and the body
    lines) between a `Listing` line and a `Total size:` line.

    The source stores the live `textures` array itself under the discipline
    name, and that array keeps growing until a `MemReport: Begin command`
    line replaces it. So a later `Listing` under the same discipline appends
    to a section that was already stored. `ParseDisciplines` keeps that
    aliasing with `LineBuffer` objects; its value-level specification
    `ParsedDisciplines` records each stored entry as `Live` (still the current
    buffer) or `Frozen` (a buffer that has been replaced). */
module Disciplines {
  import opened Wrappers
  import opened Text

  const BeginMarker: string := "MemReport: Begin command"
  const BeginPrefix: string := "MemReport: Begin command "
  const ListingMarker: string := "Listing"
  const TotalMarker: string := "Total size:"

  /** A `Record<string, string[]>`: discipline names with their lines, in
      insertion order. */
  type Record = seq<(string, seq<string>)>

  // ---------------------------------------------------------------------
  // Value-level specification
  // ---------------------------------------------------------------------

  /** A stored section: the current buffer itself, or a buffer that has
      since been replaced (and so no longer changes). */
  datatype Entry = Live | Frozen(lines: seq<string>)

  /** The loop's state: `currentDiscipline`, `textures`, `collecting`,
      `headerLineSeen` and the stored sections. */
  datatype SplitState = SplitState(
    discipline: Option<string>,
    buffer: seq<string>,
    collecting: bool,
    headerLineSeen: bool,
    entries: seq<(string, Entry)>)

  const Initial: SplitState := SplitState(None, [], false, false, [])

  function Names(entries: seq<(string, Entry)>): (r: seq<string>)
    ensures |r| == |entries| && forall k :: 0 <= k < |r| ==> r[k] == entries[k].0
  {
    seq(|entries|, k requires 0 <= k < |entries| => entries[k].0)
  }

  predicate Distinct(names: seq<string>) {
    forall k, k' :: 0 <= k < k' < |names| ==> names[k] != names[k']
  }

  /** The section as it reads once the current buffer is `buffer`. */
  function Resolve(entries: seq<(string, Entry)>, buffer: seq<string>): (r: Record)
    ensures |r| == |entries|
    ensures forall k :: 0 <= k < |r| ==>
      (r[k].0 == entries[k].0 && r[k].1 == (if entries[k].1.Live? then buffer else entries[k].1.lines))
  {
    seq(|entries|, k requires 0 <= k < |entries| =>
      (entries[k].0, if entries[k].1.Live? then buffer else entries[k].1.lines))
  }

  /** The buffer `buffer` is being replaced: what was stored keeps its
      current contents. */
  function Freeze(entries: seq<(string, Entry)>, buffer: seq<string>): (r: seq<(string, Entry)>)
    ensures |r| == |entries|
    ensures forall k :: 0 <= k < |r| ==> r[k].0 == entries[k].0 && r[k].1.Frozen?
    ensures Resolve(r, []) == Resolve(entries, buffer)
  {
    seq(|entries|, k requires 0 <= k < |entries| =>
      (entries[k].0, if entries[k].1.Live? then Frozen(buffer) else entries[k].1))
  }

  /** `disciplines[name] = textures`: an existing name keeps its position
      and now holds the current buffer; a new name is added last. */
  function Commit(entries: seq<(string, Entry)>, name: string): (r: seq<(string, Entry)>)
    ensures Distinct(Names(entries)) ==> Distinct(Names(r))
    ensures name in Names(entries) ==> Names(r) == Names(entries)
    ensures name !in Names(entries) ==> Names(r) == Names(entries) + [name]
    ensures forall k :: 0 <= k < |r| && r[k].0 != name ==> k < |entries| && r[k] == entries[k]
    ensures forall k :: 0 <= k < |r| && r[k].0 == name ==> r[k].1 == Live
  {
    if name in Names(entries) then
      seq(|entries|, k requires 0 <= k < |entries| =>
        if entries[k].0 == name then (name, Live) else entries[k])
    else
      entries + [(name, Live)]
  }

  /** The discipline name on a begin line: the line with its first
      `MemReport: Begin command ` removed, trimmed. */
  function DisciplineName(line: string): string {
    Trim(ReplaceFirst(line, BeginPrefix, ""))
  }

  /** `if (currentDiscipline)`: a name is set and is not empty. */
  predicate HasName(d: Option<string>) {
    d.Some? && d.value != ""
  }

  /** The loop body for one line, branch by branch in the source's order. */
  function Step(s: SplitState, line: string): SplitState {
    if StartsWith(line, BeginMarker) then
      SplitState(Some(DisciplineName(line)), [], false, false, Freeze(s.entries, s.buffer))
    else if StartsWith(line, ListingMarker) then
      s.(collecting := true, headerLineSeen := false)
    else if s.collecting && !s.headerLineSeen then
      s.(buffer := s.buffer + [Trim(line)], headerLineSeen := true)
    else if s.collecting && StartsWith(line, TotalMarker) then
      s.(entries := if HasName(s.discipline) then Commit(s.entries, s.discipline.value) else s.entries,
         collecting := false)
    else if s.collecting then
      s.(buffer := s.buffer + [Trim(line)])
    else
      s
  }

  /** The state after the given lines. */
  function Run(lines: seq<string>): SplitState {
    if |lines| == 0 then Initial else Step(Run(lines[..|lines| - 1]), lines[|lines| - 1])
  }

  /** The record `parseDisciplines(data)` returns. */
  function ParsedDisciplines(data: string): Record {
    var s := Run(Split(data, '\n'));
    Resolve(s.entries, s.buffer)
  }

  // ---------------------------------------------------------------------
  // Reading the record
  // ---------------------------------------------------------------------

  const AllDisciplines: string := "All"

  /** The keys of a record, in insertion order (`Object.keys`). */
  function Keys(r: Record): (names: seq<string>)
    ensures |names| == |r| && forall k :: 0 <= k < |r| ==> names[k] == r[k].0
  {
    seq(|r|, k requires 0 <= k < |r| => r[k].0)
  }

  /** The discipline choices offered: `All` followed by the record's keys. */
  function DisciplineChoices(r: Record): seq<string> {
    [AllDisciplines] + Keys(r)
  }

  /** `Object.values(r).flat()`: every section's lines, section by section. */
  function Flatten(r: Record): seq<string> {
    if |r| == 0 then [] else Flatten(r[..|r| - 1]) + r[|r| - 1].1
  }

  /** Where `name` is stored in `r`, if anywhere. */
  function SectionIndex(r: Record, name: string): (k: Option<nat>)
    ensures k.Some? ==> k.value < |r| && r[k.value].0 == name
    ensures k.None? <==> name !in Keys(r)
  {
    if |r| == 0 then None
    else if r[0].0 == name then Some(0)
    else
      assert Keys(r) == [r[0].0] + Keys(r[1..]);
      match SectionIndex(r[1..], name)
      case None => None
      case Some(k) => Some(k + 1)
  }

  /** `r[name] || []`: the lines stored under `name`, or none. */
  function SectionOf(r: Record, name: string): seq<string> {
    match SectionIndex(r, name)
    case Some(k) => r[k].1
    case None => []
  }

  /** The lines of the selected discipline: all of them for `All`. */
  function SelectedLines(r: Record, selected: string): seq<string> {
    if selected == AllDisciplines then Flatten(r) else SectionOf(r, selected)
  }

  // ---------------------------------------------------------------------
  // The imperative splitter
  // ---------------------------------------------------------------------

  /** The `textures` array: a buffer that stays shared with every entry that
      stores it. */
  class LineBuffer {
    var lines: seq<string>

    constructor ()
      ensures lines == []
    {
      lines := [];
    }

    /** `textures.push(line)`. */
    method Push(line: string)
      modifies this
      ensures lines == old(lines) + [line]
    {
      lines := lines + [line];
    }
  }

  /** The objects of `ParseDisciplines` hold the state `s`: the flags and
      the current buffer agree, the stored keys are the entry names, a `Live`
      entry stores the current buffer itself and a `Frozen` one an older
      buffer with the frozen contents. */
  ghost predicate Holds(s: SplitState, discipline: Option<string>, textures: LineBuffer,
                        collecting: bool, headerLineSeen: bool,
                        names: seq<string>, stored: map<string, LineBuffer>)
    reads textures, stored.Values
  {
    && s.discipline == discipline
    && s.buffer == textures.lines
    && s.collecting == collecting
    && s.headerLineSeen == headerLineSeen
    && Names(s.entries) == names
    && Distinct(names)
    && (forall k :: 0 <= k < |names| ==> names[k] in stored)
    && (forall k :: 0 <= k < |names| && s.entries[k].1.Live? ==> stored[names[k]] == textures)
    && (forall k :: 0 <= k < |names| && s.entries[k].1.Frozen? ==>
          stored[names[k]] != textures && stored[names[k]].lines == s.entries[k].1.lines)
  }

  /** The `forEach` callback for one line: it reassigns the closure's
      variables (returned here) and may push onto the current buffer. */
  method Feed(line: string, ghost s: SplitState,
              currentDiscipline: Option<string>, textures: LineBuffer,
              collecting: bool, headerLineSeen: bool,
              names: seq<string>, stored: map<string, LineBuffer>)
    returns (currentDiscipline': Option<string>, textures': LineBuffer,
             collecting': bool, headerLineSeen': bool,
             names': seq<string>, stored': map<string, LineBuffer>)
    requires Holds(s, currentDiscipline, textures, collecting, headerLineSeen, names, stored)
    modifies textures
    ensures textures' == textures || fresh(textures')
    ensures Holds(Step(s, line), currentDiscipline', textures', collecting', headerLineSeen', names', stored')
  {
    currentDiscipline', textures', collecting', headerLineSeen', names', stored' :=
      currentDiscipline, textures, collecting, headerLineSeen, names, stored;
    if StartsWith(line, BeginMarker) {
      currentDiscipline' := Some(Trim(ReplaceFirst(line, BeginPrefix, "")));
      textures' := new LineBuffer();
      collecting' := false;
      headerLineSeen' := false;
    } else if StartsWith(line, ListingMarker) {
      collecting' := true;
      headerLineSeen' := false;
    } else if collecting && !headerLineSeen {
      textures.Push(Trim(line));
      headerLineSeen' := true;
    } else if collecting && StartsWith(line, TotalMarker) {
      if currentDiscipline.Some? && currentDiscipline.value != "" {
        var name := currentDiscipline.value;
        if name !in names {
          names' := names + [name];
        }
        stored' := stored[name := textures];
      }
      collecting' := false;
    } else if collecting {
      textures.Push(Trim(line));
    }
  }

  /** `parseDisciplines(data)`: the stored record, read once the pass is
      over (so each stored buffer is read in its final state). */
  method ParseDisciplines(data: string) returns (result: Record)
    ensures result == ParsedDisciplines(data)
  {
    var names: seq<string> := [];
    var stored: map<string, LineBuffer> := map[];
    var currentDiscipline: Option<string> := None;
    var textures := new LineBuffer();
    var collecting := false;
    var headerLineSeen := false;
    var lines := Split(data, '\n');
    for i := 0 to |lines|
      invariant fresh(textures)
      invariant Holds(Run(lines[..i]), currentDiscipline, textures, collecting, headerLineSeen, names, stored)
    {
      assert lines[..i + 1][..i] == lines[..i];
      currentDiscipline, textures, collecting, headerLineSeen, names, stored :=
        Feed(lines[i], Run(lines[..i]), currentDiscipline, textures, collecting, headerLineSeen, names, stored);
    }
    assert lines[..|lines|] == lines;
    ghost var final := Run(lines);
    result := [];
    for k := 0 to |names|
      invariant |result| == k
      invariant forall k' :: 0 <= k' < k ==> result[k'] == (names[k'], stored[names[k']].lines)
    {
      result := result + [(names[k], stored[names[k]].lines)];
    }
    assert Holds(final, currentDiscipline, textures, collecting, headerLineSeen, names, stored);
  }

  // ---------------------------------------------------------------------
  // Properties of the specification
  // ---------------------------------------------------------------------

  /** What holds of every state the pass reaches: names are distinct and
      non-empty, a header has been captured whenever the body is being
      collected, every stored section (frozen or live) is non-empty, and no
      collected line contains a line break. */
  ghost predicate WellFormed(s: SplitState) {
    && Distinct(Names(s.entries))
    && (forall k :: 0 <= k < |s.entries| ==> s.entries[k].0 != "")
    && (s.collecting && s.headerLineSeen ==> s.buffer != [])
    && (forall k :: 0 <= k < |s.entries| && s.entries[k].1.Live? ==> s.buffer != [])
    && (forall k :: 0 <= k < |s.entries| && s.entries[k].1.Frozen? ==> s.entries[k].1.lines != [])
    && (forall l :: l in s.buffer ==> '\n' !in l)
    && (forall k :: 0 <= k < |s.entries| && s.entries[k].1.Frozen? ==>
          forall l :: l in s.entries[k].1.lines ==> '\n' !in l)
  }

  lemma StepWellFormed(s: SplitState, line: string)
    requires WellFormed(s)
    requires '\n' !in line
    ensures WellFormed(Step(s, line))
  {
    TrimSubset(line);
    var t := Step(s, line);
    if StartsWith(line, BeginMarker) {
    } else if StartsWith(line, ListingMarker) {
    } else if s.collecting && !s.headerLineSeen {
    } else if s.collecting && StartsWith(line, TotalMarker) {
      if HasName(s.discipline) {
        var e := Commit(s.entries, s.discipline.value);
        forall k | 0 <= k < |e| ensures e[k].0 != "" {
          if e[k].0 != s.discipline.value {
            assert e[k] == s.entries[k];
          }
        }
      }
    } else if s.collecting {
    }
  }

  /** Every state reached from the start on a report's lines is well formed. */
  lemma {:induction false} RunWellFormed(lines: seq<string>)
    requires forall i :: 0 <= i < |lines| ==> '\n' !in lines[i]
    ensures WellFormed(Run(lines))
  {
    if |lines| > 0 {
      RunWellFormed(lines[..|lines| - 1]);
      StepWellFormed(Run(lines[..|lines| - 1]), lines[|lines| - 1]);
    }
  }

  /** The record's keys are distinct non-empty names, and each holds at
      least one line (its captured header), none with a line break. */
  lemma DisciplinesWellFormed(data: string)
    ensures Distinct(Keys(ParsedDisciplines(data)))
    ensures forall k :: 0 <= k < |ParsedDisciplines(data)| ==>
      ParsedDisciplines(data)[k].0 != "" && ParsedDisciplines(data)[k].1 != [] &&
      forall l :: l in ParsedDisciplines(data)[k].1 ==> '\n' !in l
  {
    var s := Run(Split(data, '\n'));
    RunWellFormed(Split(data, '\n'));
    assert Keys(ParsedDisciplines(data)) == Names(s.entries);
  }

  /** A section's first line is the header captured after a `Listing` line:
      an empty buffer only ever grows through the header-capture branch. */
  lemma FirstLineIsHeader(s: SplitState, line: string)
    requires WellFormed(s)
    requires s.buffer == [] && Step(s, line).buffer != []
    ensures !StartsWith(line, BeginMarker) && !StartsWith(line, ListingMarker)
    ensures s.collecting && !s.headerLineSeen
    ensures Step(s, line).buffer == [Trim(line)] && Step(s, line).headerLineSeen
  {
  }

  /** Outside a listing, a line that is neither a begin nor a `Listing`
      line changes nothing. */
  lemma IgnoredOutsideListing(s: SplitState, line: string)
    requires !s.collecting
    requires !StartsWith(line, BeginMarker) && !StartsWith(line, ListingMarker)
    ensures Step(s, line) == s
  {
  }

  /** The line right after a `Listing` line is always captured, trimmed, as
      the section's header, whatever it holds (even nothing, or `Total
      size:`); the stored sections are untouched. */
  lemma ListingCapturesNextLine(s: SplitState, listing: string, line: string)
    requires StartsWith(listing, ListingMarker)
    requires !StartsWith(line, BeginMarker) && !StartsWith(line, ListingMarker)
    ensures var t := Step(Step(s, listing), line);
      && t.buffer == s.buffer + [Trim(line)]
      && t.collecting && t.headerLineSeen
      && t.entries == s.entries && t.discipline == s.discipline
  {
    assert !StartsWith(listing, BeginMarker) by {
      assert listing[0] == ListingMarker[0] != BeginMarker[0];
    }
  }

  /** One line changes the record only in these ways: a section still
      sharing the current buffer gets the collected line appended (also a
      section stored by an earlier listing of the same discipline), a
      `Total size:` line stores the current buffer under the current name
      (replacing what that name held), and a new name goes last. */
  lemma StepChangesRecord(s: SplitState, line: string)
    requires WellFormed(s)
    ensures var r0 := Resolve(s.entries, s.buffer);
      var t := Step(s, line);
      var r := Resolve(t.entries, t.buffer);
      && |r0| <= |r|
      && forall k :: 0 <= k < |r0| ==>
           && r[k].0 == r0[k].0
           && (|| r[k].1 == r0[k].1
               || (s.collecting && s.entries[k].1.Live? && r[k].1 == r0[k].1 + [Trim(line)])
               || (s.collecting && StartsWith(line, TotalMarker) && HasName(s.discipline) &&
                   r[k].0 == s.discipline.value && r[k].1 == s.buffer))
  {
    var r0 := Resolve(s.entries, s.buffer);
    var t := Step(s, line);
    var r := Resolve(t.entries, t.buffer);
    if StartsWith(line, BeginMarker) {
    } else if StartsWith(line, ListingMarker) {
    } else if s.collecting && !s.headerLineSeen {
    } else if s.collecting && StartsWith(line, TotalMarker) {
      if HasName(s.discipline) {
        var name := s.discipline.value;
        forall k | 0 <= k < |r0|
          ensures r[k].0 == r0[k].0
          ensures r[k].1 == r0[k].1 || (r[k].0 == name && r[k].1 == s.buffer)
        {
          assert Names(t.entries)[k] == Names(s.entries)[k];
          if s.entries[k].0 != name {
            assert t.entries[k] == s.entries[k];
          }
        }
      }
    } else if s.collecting {
    }
  }

  /** Once stored, a discipline keeps its key and its position: the keys
      after a prefix of the lines are a prefix of the final keys. */
  lemma {:induction false} RunKeepsKeys(lines: seq<string>, n: nat)
    requires n <= |lines|
    requires forall i :: 0 <= i < |lines| ==> '\n' !in lines[i]
    ensures Names(Run(lines[..n]).entries) <= Names(Run(lines).entries)
    decreases |lines| - n
  {
    assert lines[..|lines|] == lines;
    if n < |lines| {
      var pre := lines[..n + 1];
      assert pre[..n] == lines[..n];
      RunWellFormed(lines[..n]);
      StepChangesRecord(Run(lines[..n]), lines[n]);
      RunKeepsKeys(lines, n + 1);
      var s := Run(lines[..n]);
      var t := Run(pre);
      assert Names(s.entries) <= Names(t.entries) by {
        assert Names(s.entries) == Keys(Resolve(s.entries, s.buffer));
        assert Names(t.entries) == Keys(Resolve(t.entries, t.buffer));
      }
    }
  }

  /** A discipline is stored only by a `Total size:` line that closes a
      listing whose header was captured, under a non-empty discipline name;
      and that line stores exactly that name. */
  lemma StoredOnlyOnTotal(s: SplitState, line: string)
    requires Names(Step(s, line).entries) != Names(s.entries)
    ensures !StartsWith(line, BeginMarker) && !StartsWith(line, ListingMarker)
    ensures StartsWith(line, TotalMarker) && s.collecting && s.headerLineSeen
    ensures HasName(s.discipline)
    ensures Names(Step(s, line).entries) == Names(s.entries) + [s.discipline.value]
  {
  }

  /** A begin line drops the unfinished buffer: the record is unchanged,
      the next section starts empty and both flags are cleared; when the
      line holds the marker with its trailing space, the new name is the
      rest of the line, trimmed. */
  lemma BeginDropsBuffer(s: SplitState, line: string)
    requires StartsWith(line, BeginMarker)
    ensures var t := Step(s, line);
      && Resolve(t.entries, t.buffer) == Resolve(s.entries, s.buffer)
      && t.buffer == [] && !t.collecting && !t.headerLineSeen
      && (StartsWith(line, BeginPrefix) ==> t.discipline == Some(Trim(line[|BeginPrefix|..])))
  {
    if StartsWith(line, BeginPrefix) {
      assert ReplaceFirst(line, BeginPrefix, "") == line[|BeginPrefix|..] by {
        assert "" + line[|BeginPrefix|..] == line[|BeginPrefix|..];
      }
    }
  }

  /** The choices offered are distinct unless a discipline is itself named
      `All`. */
  lemma ChoicesDistinct(data: string)
    requires AllDisciplines !in Keys(ParsedDisciplines(data))
    ensures Distinct(DisciplineChoices(ParsedDisciplines(data)))
  {
    DisciplinesWellFormed(data);
  }
}
