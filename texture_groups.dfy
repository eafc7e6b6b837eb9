/** Texture-group extraction and selection in
    `src/parseTextures/TexturesDisplay.tsx`: the `TEXTUREGROUP_` tokens found
    in the selected discipline's lines, offered after `All Groups`, and the
    `toggleGroup` transition of the selected groups. */
module TextureGroups {
  import opened Wrappers
  import opened Text
  import opened Disciplines
  import TexturesData

  const GroupPrefix: string := "TEXTUREGROUP_"

  /** `/TEXTUREGROUP_\w+/` anchored at `i`: the prefix followed by the
      longest non-empty run of word characters. */
  function TokenAt(line: string, i: nat): Option<string>
    requires i <= |line|
  {
    if OccursAt(line, GroupPrefix, i) && WordEnd(line, i + |GroupPrefix|) > i + |GroupPrefix| then
      Some(line[i..WordEnd(line, i + |GroupPrefix|)])
    else None
  }

  /** A token is the prefix followed by at least one word character, and
      only word characters. */
  predicate IsToken(g: string) {
    && |g| > |GroupPrefix|
    && g[..|GroupPrefix|] == GroupPrefix
    && forall k :: |GroupPrefix| <= k < |g| ==> IsWordChar(g[k])
  }

  /** The leftmost match at or after `i`. */
  function TokenFrom(line: string, i: nat): (r: Option<string>)
    requires i <= |line|
    ensures r.Some? ==> IsToken(r.value)
    ensures TokenAt(line, i).Some? ==> r == TokenAt(line, i)
    decreases |line| - i
  {
    if TokenAt(line, i).Some? then TokenAt(line, i)
    else if i == |line| then None
    else TokenFrom(line, i + 1)
  }

  /** `line.match(/TEXTUREGROUP_\w+/)?.[0]`. */
  function GroupToken(line: string): (r: Option<string>)
    ensures r.Some? ==> IsToken(r.value)
  {
    TokenFrom(line, 0)
  }

  /** An anchored match is the text at its position, and it stops before a
      non-word character or at the end of the line. */
  lemma TokenAtShape(line: string, i: nat)
    requires i <= |line| && TokenAt(line, i).Some?
    ensures var g := TokenAt(line, i).value;
      && i + |g| <= |line| && line[i..i + |g|] == g
      && (i + |g| == |line| || !IsWordChar(line[i + |g|]))
  {
    var e := WordEnd(line, i + |GroupPrefix|);
    assert TokenAt(line, i).value == line[i..e];
  }

  /** The match found from `i` is the anchored match at the leftmost
      position that has one. */
  lemma {:induction false} TokenFromLeftmost(line: string, i: nat) returns (p: nat)
    requires i <= |line|
    requires TokenFrom(line, i).Some?
    ensures i <= p <= |line|
    ensures TokenAt(line, p) == TokenFrom(line, i)
    ensures forall q :: i <= q < p ==> TokenAt(line, q).None?
    decreases |line| - i
  {
    if TokenAt(line, i).Some? {
      p := i;
    } else {
      p := TokenFromLeftmost(line, i + 1);
      forall q | i <= q < p
        ensures TokenAt(line, q).None?
      {
        if q > i {
          assert i + 1 <= q;
        }
      }
    }
  }

  /** The token of a line is text of the line at its leftmost match, and it
      is maximal: the character after it is not a word character. */
  lemma GroupTokenInLine(line: string) returns (p: nat)
    requires GroupToken(line).Some?
    ensures p + |GroupToken(line).value| <= |line|
    ensures line[p..p + |GroupToken(line).value|] == GroupToken(line).value
    ensures p + |GroupToken(line).value| == |line| || !IsWordChar(line[p + |GroupToken(line).value|])
    ensures forall q :: 0 <= q < p ==> TokenAt(line, q).None?
  {
    p := TokenFromLeftmost(line, 0);
    TokenAtShape(line, p);
  }

  /** The groups of the lines, in the order a `Set` receives them. */
  function GroupsOf(lines: seq<string>): seq<string> {
    if |lines| == 0 then []
    else
      var acc := GroupsOf(lines[..|lines| - 1]);
      match GroupToken(lines[|lines| - 1])
      case Some(g) => if g in acc then acc else acc + [g]
      case None => acc
  }

  /** `extractTextureGroups(selectedDiscipline, disciplinesData)`. */
  method ExtractTextureGroups(selectedDiscipline: string, disciplinesData: Record) returns (groups: seq<string>)
    ensures groups == GroupsOf(SelectedLines(disciplinesData, selectedDiscipline))
  {
    var textures := SelectedLines(disciplinesData, selectedDiscipline);
    groups := [];
    for i := 0 to |textures|
      invariant groups == GroupsOf(textures[..i])
    {
      assert textures[..i + 1][..i] == textures[..i];
      var m := GroupToken(textures[i]);
      if m.Some? && m.value !in groups {
        groups := groups + [m.value];
      }
    }
    assert textures[..|textures|] == textures;
  }

  /** `textureGroups`: `All Groups` followed by the extracted groups. */
  method TextureGroupsOffered(selectedDiscipline: string, disciplinesData: Record) returns (offered: seq<string>)
    ensures |offered| >= 1 && offered[0] == TexturesData.AllGroups
    ensures offered[1..] == GroupsOf(SelectedLines(disciplinesData, selectedDiscipline))
  {
    var groups := ExtractTextureGroups(selectedDiscipline, disciplinesData);
    offered := [TexturesData.AllGroups] + groups;
  }

  /** No group is listed twice. */
  lemma {:induction false} GroupsOfDistinct(lines: seq<string>)
    ensures Distinct(GroupsOf(lines))
  {
    if |lines| > 0 {
      GroupsOfDistinct(lines[..|lines| - 1]);
    }
  }

  /** A group is listed exactly when some line's token is that group. */
  lemma {:induction false} GroupsOfMembers(lines: seq<string>)
    ensures forall g :: g in GroupsOf(lines) <==> exists i :: 0 <= i < |lines| && GroupToken(lines[i]) == Some(g)
  {
    if |lines| > 0 {
      var pre := lines[..|lines| - 1];
      GroupsOfMembers(pre);
      forall g ensures g in GroupsOf(lines) <==> exists i :: 0 <= i < |lines| && GroupToken(lines[i]) == Some(g) {
        if exists i :: 0 <= i < |lines| && GroupToken(lines[i]) == Some(g) {
          var i :| 0 <= i < |lines| && GroupToken(lines[i]) == Some(g);
          if i < |lines| - 1 {
            assert GroupToken(pre[i]) == Some(g);
          }
        }
        if g in GroupsOf(pre) {
          var i :| 0 <= i < |pre| && GroupToken(pre[i]) == Some(g);
          assert GroupToken(lines[i]) == Some(g);
        }
      }
    }
  }

  /** `g` occurs on a line at or before which `h` has not occurred. */
  ghost predicate SeenBefore(lines: seq<string>, g: string, h: string) {
    exists i :: 0 <= i < |lines| && GroupToken(lines[i]) == Some(g) && NotSeenUpTo(lines, h, i)
  }

  ghost predicate NotSeenUpTo(lines: seq<string>, h: string, i: int) {
    forall j :: 0 <= j <= i && j < |lines| ==> GroupToken(lines[j]) != Some(h)
  }

  /** Groups are listed in first-seen order. */
  lemma {:induction false} GroupsOfOrder(lines: seq<string>)
    ensures forall a, b :: 0 <= a < b < |GroupsOf(lines)| ==>
      SeenBefore(lines, GroupsOf(lines)[a], GroupsOf(lines)[b])
  {
    if |lines| > 0 {
      var pre := lines[..|lines| - 1];
      var r0 := GroupsOf(pre);
      var r := GroupsOf(lines);
      GroupsOfOrder(pre);
      GroupsOfMembers(pre);
      forall a, b | 0 <= a < b < |r| ensures SeenBefore(lines, r[a], r[b]) {
        assert r[a] == r0[a];
        if b < |r0| {
          assert r[b] == r0[b];
          assert SeenBefore(pre, r0[a], r0[b]);
          var i :| 0 <= i < |pre| && GroupToken(pre[i]) == Some(r0[a]) && NotSeenUpTo(pre, r0[b], i);
          assert GroupToken(lines[i]) == Some(r[a]);
          assert NotSeenUpTo(lines, r[b], i) by {
            forall j | 0 <= j <= i ensures GroupToken(lines[j]) != Some(r[b]) {
              assert lines[j] == pre[j];
            }
          }
        } else {
          assert r[b] !in r0;
          assert r0[a] in r0;
          var i :| 0 <= i < |pre| && GroupToken(pre[i]) == Some(r0[a]);
          assert GroupToken(lines[i]) == Some(r[a]);
          assert NotSeenUpTo(lines, r[b], i) by {
            forall j | 0 <= j <= i ensures GroupToken(lines[j]) != Some(r[b]) {
              assert lines[j] == pre[j];
            }
          }
        }
      }
    }
  }

  /** A discipline that is not in the record offers no groups. */
  lemma UnknownDisciplineNoGroups(disciplinesData: Record, selected: string)
    requires selected != AllDisciplines && selected !in Keys(disciplinesData)
    ensures GroupsOf(SelectedLines(disciplinesData, selected)) == []
  {
  }

  // ---------------------------------------------------------------------
  // toggleGroup
  // ---------------------------------------------------------------------

  /** `prev.filter((g) => g !== group && g !== "All Groups")`. */
  function WithoutGroup(prev: seq<string>, group: string): (r: seq<string>)
    ensures forall x :: x in r <==> x in prev && x != group && x != TexturesData.AllGroups
    ensures Distinct(prev) ==> Distinct(r)
  {
    if |prev| == 0 then []
    else
      var rest := WithoutGroup(prev[..|prev| - 1], group);
      var x := prev[|prev| - 1];
      assert forall y :: y in prev <==> y in prev[..|prev| - 1] || y == x;
      if x != group && x != TexturesData.AllGroups then
        assert Distinct(prev) ==> x !in prev[..|prev| - 1];
        rest + [x]
      else rest
  }

  /** `toggleGroup(group)` applied to the selection `prev`. */
  function ToggleGroup(prev: seq<string>, group: string): seq<string> {
    if group == TexturesData.AllGroups then
      (if TexturesData.AllGroups in prev then [] else [TexturesData.AllGroups])
    else if group in prev then WithoutGroup(prev, group)
    else WithoutGroup(prev, group) + [group]
  }

  /** After any toggle, `All Groups` is selected only on its own. */
  lemma ToggleAllGroupsAlone(prev: seq<string>, group: string)
    ensures TexturesData.AllGroups in ToggleGroup(prev, group) ==> ToggleGroup(prev, group) == [TexturesData.AllGroups]
  {
  }

  /** Toggling a group (other than `All Groups`) selects it exactly once if
      it was not selected and deselects it if it was; the other selected
      groups stay, and `All Groups` goes. A newly selected group goes last,
      after the earlier selection unchanged. */
  lemma ToggleFlips(prev: seq<string>, group: string)
    requires group != TexturesData.AllGroups
    ensures var r := ToggleGroup(prev, group);
      && (group in r <==> group !in prev)
      && multiset(r)[group] == (if group in prev then 0 else 1)
      && (forall x :: x != group && x != TexturesData.AllGroups ==> (x in r <==> x in prev))
      && TexturesData.AllGroups !in r
      && (group !in prev ==> r[|r| - 1] == group)
      && (group !in prev && TexturesData.AllGroups !in prev ==> r == prev + [group])
  {
    var w := WithoutGroup(prev, group);
    assert group !in w;
    assert multiset(w)[group] == 0;
    if group !in prev && TexturesData.AllGroups !in prev {
      WithoutAbsent(prev, group);
    }
  }

  /** The filter keeps the entries it keeps in their order: entry j of the
      result is entry `idx[j]` of `prev`, the positions increase, and every
      position holding neither value is among them. */
  lemma {:induction false} WithoutGroupOrder(prev: seq<string>, group: string) returns (idx: seq<nat>)
    ensures var r := WithoutGroup(prev, group);
      && |idx| == |r|
      && (forall j :: 0 <= j < |idx| ==> idx[j] < |prev| && r[j] == prev[idx[j]])
      && (forall j, k :: 0 <= j < k < |idx| ==> idx[j] < idx[k])
      && (forall i :: 0 <= i < |prev| && prev[i] != group && prev[i] != TexturesData.AllGroups ==> i in idx)
  {
    if |prev| == 0 {
      idx := [];
    } else {
      var n := |prev| - 1;
      var rest := WithoutGroupOrder(prev[..n], group);
      var x := prev[n];
      if x != group && x != TexturesData.AllGroups {
        idx := rest + [n];
      } else {
        idx := rest;
      }
      forall i | 0 <= i < |prev| && prev[i] != group && prev[i] != TexturesData.AllGroups
        ensures i in idx
      {
        if i < n {
          assert prev[..n][i] == prev[i];
        }
      }
    }
  }

  /** A selection without duplicates stays without duplicates through any
      toggle. */
  lemma ToggleKeepsDistinct(prev: seq<string>, group: string)
    requires Distinct(prev)
    ensures Distinct(ToggleGroup(prev, group))
  {
    if group != TexturesData.AllGroups && group !in prev {
      var w := WithoutGroup(prev, group);
      assert group !in w;
    }
  }

  lemma {:induction false} WithoutAbsent(prev: seq<string>, group: string)
    requires group !in prev && TexturesData.AllGroups !in prev
    ensures WithoutGroup(prev, group) == prev
  {
    if |prev| > 0 {
      WithoutAbsent(prev[..|prev| - 1], group);
    }
  }

  /** Toggling an unselected group twice gives the selection back, and so
      does toggling `All Groups` twice from a selection without it that is
      empty. */
  lemma ToggleTwice(prev: seq<string>, group: string)
    requires group !in prev && TexturesData.AllGroups !in prev
    requires group != TexturesData.AllGroups || prev == []
    ensures ToggleGroup(ToggleGroup(prev, group), group) == prev
  {
    if group != TexturesData.AllGroups {
      WithoutAbsent(prev, group);
      var once := prev + [group];
      assert ToggleGroup(prev, group) == once;
      assert once[..|once| - 1] == prev;
      assert WithoutGroup(once, group) == WithoutGroup(prev, group);
    }
  }
}
