/** The JavaScript string built-ins the parser relies on, over `seq<char>`:
    `split` and `join` on one separator character, `trim`, `includes`,
    `indexOf`, `startsWith`, `replace` of the first occurrence,
    `toLowerCase` (ASCII letters only) and the regular-expression character
    classes `\s`, `\d` and `\w`. */
module Text {
  import opened Wrappers

  // ---------------------------------------------------------------------
  // Character classes
  // ---------------------------------------------------------------------

  /** JavaScript's white space and line terminators: the class `\s` and what
      `String.prototype.trim` removes. */
  predicate IsSpace(c: char) {
    c == '\t' || c == '\n' || c == '\U{B}' || c == '\U{C}' || c == '\r' || c == ' ' ||
    c == '\U{A0}' || c == '\U{1680}' || ('\U{2000}' <= c <= '\U{200A}') ||
    c == '\U{2028}' || c == '\U{2029}' || c == '\U{202F}' || c == '\U{205F}' ||
    c == '\U{3000}' || c == '\U{FEFF}'
  }

  /** The class `\d`. */
  predicate IsDigit(c: char) {
    '0' <= c <= '9'
  }

  /** The class `\w`. */
  predicate IsWordChar(c: char) {
    ('a' <= c <= 'z') || ('A' <= c <= 'Z') || IsDigit(c) || c == '_'
  }

  function LowerChar(c: char): char {
    if 'A' <= c <= 'Z' then (c as int - 'A' as int + 'a' as int) as char else c
  }

  /** `toLowerCase`, on ASCII letters. */
  function ToLower(s: string): (r: string)
    ensures |r| == |s|
    ensures forall i :: 0 <= i < |s| ==> r[i] == LowerChar(s[i])
  {
    seq(|s|, i requires 0 <= i < |s| => LowerChar(s[i]))
  }

  // ---------------------------------------------------------------------
  // Trimming
  // ---------------------------------------------------------------------

  /** `trimStart`: drops the leading white space. */
  function TrimStart(s: string): (r: string)
    ensures |r| <= |s|
  {
    if |s| > 0 && IsSpace(s[0]) then TrimStart(s[1..]) else s
  }

  /** `trimEnd`: drops the trailing white space. */
  function TrimEnd(s: string): (r: string)
    ensures |r| <= |s|
  {
    if |s| > 0 && IsSpace(s[|s| - 1]) then TrimEnd(s[..|s| - 1]) else s
  }

  /** `trim`. */
  function Trim(s: string): (r: string)
    ensures |r| <= |s|
  {
    TrimEnd(TrimStart(s))
  }

  /** `trimStart` removes a prefix of white space, and only that. */
  lemma {:induction false} TrimStartDrops(s: string)
    ensures TrimStart(s) == s[|s| - |TrimStart(s)|..]
    ensures TrimStart(s) == [] || !IsSpace(TrimStart(s)[0])
    ensures forall i :: 0 <= i < |s| - |TrimStart(s)| ==> IsSpace(s[i])
  {
    if |s| > 0 && IsSpace(s[0]) {
      TrimStartDrops(s[1..]);
    }
  }

  /** `trimEnd` removes a suffix of white space, and only that. */
  lemma {:induction false} TrimEndDrops(s: string)
    ensures TrimEnd(s) == s[..|TrimEnd(s)|]
    ensures TrimEnd(s) == [] || !IsSpace(TrimEnd(s)[|TrimEnd(s)| - 1])
    ensures forall i :: |TrimEnd(s)| <= i < |s| ==> IsSpace(s[i])
  {
    if |s| > 0 && IsSpace(s[|s| - 1]) {
      TrimEndDrops(s[..|s| - 1]);
    }
  }

  /** A trimmed string neither starts nor ends with white space. */
  lemma TrimEnds(s: string)
    ensures Trim(s) == [] || (!IsSpace(Trim(s)[0]) && !IsSpace(Trim(s)[|Trim(s)| - 1]))
  {
    var t := TrimStart(s);
    TrimStartDrops(s);
    TrimEndDrops(t);
    if Trim(s) != [] {
      assert Trim(s)[0] == t[0];
    }
  }

  lemma TrimStartFixed(s: string)
    requires s == [] || !IsSpace(s[0])
    ensures TrimStart(s) == s
  {
  }

  lemma TrimEndFixed(s: string)
    requires s == [] || !IsSpace(s[|s| - 1])
    ensures TrimEnd(s) == s
  {
  }

  /** Trimming only removes characters. */
  lemma TrimSubset(s: string)
    ensures forall x :: x in Trim(s) ==> x in s
  {
    var t := TrimStart(s);
    TrimStartDrops(s);
    TrimEndDrops(t);
    forall x | x in Trim(s) ensures x in s {
      var i :| 0 <= i < |Trim(s)| && Trim(s)[i] == x;
      assert t[i] == x;
      assert s[|s| - |t| + i] == x;
    }
  }

  /** Trimming twice is trimming once. */
  lemma TrimIdempotent(s: string)
    ensures Trim(Trim(s)) == Trim(s)
  {
    var t := Trim(s);
    TrimEnds(s);
    TrimStartFixed(t);
    TrimEndFixed(t);
  }

  /** `s.trim()` for each element, as `map((x) => x.trim())` does. */
  function TrimAll(ss: seq<string>): (r: seq<string>)
    ensures |r| == |ss|
    ensures forall i :: 0 <= i < |ss| ==> r[i] == Trim(ss[i])
  {
    seq(|ss|, i requires 0 <= i < |ss| => Trim(ss[i]))
  }

  /** `filter(Boolean)` on strings: keeps the non-empty ones, in order. */
  function NonEmpty(ss: seq<string>): (r: seq<string>)
    ensures forall x :: x in r <==> x in ss && x != []
    ensures forall i :: 0 <= i < |r| ==> r[i] != []
  {
    if |ss| == 0 then []
    else if ss[0] == [] then NonEmpty(ss[1..])
    else [ss[0]] + NonEmpty(ss[1..])
  }

  /** `NonEmpty` keeps order and repeats: entry j of the result is entry
      `idx[j]` of `ss`, the positions increase, and every non-empty entry's
      position is among them. */
  lemma {:induction false} NonEmptyOrder(ss: seq<string>) returns (idx: seq<nat>)
    ensures |idx| == |NonEmpty(ss)|
    ensures forall j :: 0 <= j < |idx| ==> idx[j] < |ss| && NonEmpty(ss)[j] == ss[idx[j]]
    ensures forall j, k :: 0 <= j < k < |idx| ==> idx[j] < idx[k]
    ensures forall i :: 0 <= i < |ss| && ss[i] != [] ==> i in idx
  {
    if |ss| == 0 {
      idx := [];
    } else {
      var rest := NonEmptyOrder(ss[1..]);
      var shifted := ShiftPositions(ss, rest);
      if ss[0] == [] {
        idx := shifted;
        assert NonEmpty(ss) == NonEmpty(ss[1..]);
      } else {
        idx := KeepFirstPosition(ss, shifted);
      }
    }
  }

  /** The positions when the first entry is non-empty and kept. */
  lemma KeepFirstPosition(ss: seq<string>, shifted: seq<nat>) returns (idx: seq<nat>)
    requires |ss| >= 1 && ss[0] != []
    requires |shifted| == |NonEmpty(ss[1..])|
    requires forall j :: 0 <= j < |shifted| ==> shifted[j] < |ss| && NonEmpty(ss[1..])[j] == ss[shifted[j]]
    requires forall j :: 0 <= j < |shifted| ==> 1 <= shifted[j]
    requires forall j, k :: 0 <= j < k < |shifted| ==> shifted[j] < shifted[k]
    requires forall i :: 1 <= i < |ss| && ss[i] != [] ==> i in shifted
    ensures |idx| == |NonEmpty(ss)|
    ensures forall j :: 0 <= j < |idx| ==> idx[j] < |ss| && NonEmpty(ss)[j] == ss[idx[j]]
    ensures forall j, k :: 0 <= j < k < |idx| ==> idx[j] < idx[k]
    ensures forall i :: 0 <= i < |ss| && ss[i] != [] ==> i in idx
  {
    idx := [0] + shifted;
    assert NonEmpty(ss) == [ss[0]] + NonEmpty(ss[1..]);
    forall j, k | 0 <= j < k < |idx|
      ensures idx[j] < idx[k]
    {
      assert idx[k] == shifted[k - 1];
      if j > 0 {
        assert idx[j] == shifted[j - 1];
      }
    }
    forall i | 0 <= i < |ss| && ss[i] != []
      ensures i in idx
    {
      if i > 0 {
        assert i in shifted;
      }
    }
  }

  /** Positions in `ss[1..]` moved to the matching positions in `ss`. */
  lemma ShiftPositions(ss: seq<string>, rest: seq<nat>) returns (shifted: seq<nat>)
    requires |ss| >= 1
    requires forall j :: 0 <= j < |rest| ==> rest[j] < |ss| - 1
    requires forall j, k :: 0 <= j < k < |rest| ==> rest[j] < rest[k]
    requires forall i :: 0 <= i < |ss| - 1 && ss[1..][i] != [] ==> i in rest
    ensures |shifted| == |rest|
    ensures forall j :: 0 <= j < |rest| ==> shifted[j] == rest[j] + 1 && ss[shifted[j]] == ss[1..][rest[j]]
    ensures forall j :: 0 <= j < |shifted| ==> 1 <= shifted[j]
    ensures forall j, k :: 0 <= j < k < |shifted| ==> shifted[j] < shifted[k]
    ensures forall i :: 1 <= i < |ss| && ss[i] != [] ==> i in shifted
  {
    shifted := seq(|rest|, j requires 0 <= j < |rest| => rest[j] + 1);
    forall i | 1 <= i < |ss| && ss[i] != []
      ensures i in shifted
    {
      assert ss[1..][i - 1] == ss[i];
      var j :| 0 <= j < |rest| && rest[j] == i - 1;
      assert shifted[j] == i;
    }
  }

  // ---------------------------------------------------------------------
  // Splitting and joining on one character
  // ---------------------------------------------------------------------

  /** `s.split(c)` for a one-character separator: the pieces between
      consecutive separators, so there is always at least one piece. */
  function Split(s: string, c: char): (r: seq<string>)
    ensures |r| >= 1
    ensures forall i :: 0 <= i < |r| ==> c !in r[i]
  {
    if |s| == 0 then [""]
    else
      var rest := Split(s[1..], c);
      if s[0] == c then [""] + rest
      else [[s[0]] + rest[0]] + rest[1..]
  }

  /** `parts.join(c)`; the empty array joins to the empty string. */
  function Join(parts: seq<string>, c: char): string {
    if |parts| == 0 then ""
    else if |parts| == 1 then parts[0]
    else parts[0] + [c] + Join(parts[1..], c)
  }

  lemma {:induction false} SplitNoSeparator(s: string, c: char)
    requires c !in s
    ensures Split(s, c) == [s]
  {
    if |s| > 0 {
      SplitNoSeparator(s[1..], c);
      assert [s[0]] + s[1..] == s;
    }
  }

  /** Splitting a piece without the separator, then the separator, then the
      rest, yields that piece followed by the pieces of the rest. */
  lemma {:induction false} SplitAfterPiece(p: string, c: char, t: string)
    requires c !in p
    ensures Split(p + [c] + t, c) == [p] + Split(t, c)
  {
    if |p| == 0 {
      assert p + [c] + t == [c] + t;
      assert ([c] + t)[1..] == t;
    } else {
      SplitAfterPiece(p[1..], c, t);
      assert (p + [c] + t)[1..] == p[1..] + [c] + t;
      assert [p[0]] + p[1..] == p;
    }
  }

  /** Joining pieces that do not hold the separator and splitting the result
      gives the pieces back. */
  lemma {:induction false} SplitJoin(parts: seq<string>, c: char)
    requires |parts| >= 1
    requires forall i :: 0 <= i < |parts| ==> c !in parts[i]
    ensures Split(Join(parts, c), c) == parts
  {
    if |parts| == 1 {
      SplitNoSeparator(parts[0], c);
    } else {
      SplitJoin(parts[1..], c);
      SplitAfterPiece(parts[0], c, Join(parts[1..], c));
      assert [parts[0]] + parts[1..] == parts;
    }
  }

  /** The first piece of a split is the text before the first separator. */
  lemma {:induction false} SplitFirstPiece(s: string, c: char)
    ensures var p := Split(s, c)[0];
      |p| <= |s| && s[..|p|] == p && (|p| == |s| || s[|p|] == c)
  {
    if |s| > 0 {
      SplitFirstPiece(s[1..], c);
    }
  }

  /** The last piece of a split is the text after the last separator:
      returns the text before it, which is empty or ends with the
      separator, and is empty when there is only one piece. */
  lemma {:induction false} SplitLastPiece(s: string, c: char) returns (pre: string)
    ensures var r := Split(s, c);
      && s == pre + r[|r| - 1]
      && (pre == [] || pre[|pre| - 1] == c)
      && (|r| == 1 <==> pre == [])
  {
    if |s| == 0 {
      pre := [];
    } else {
      var rest := Split(s[1..], c);
      var pre' := SplitLastPiece(s[1..], c);
      if s[0] == c {
        pre := [c] + pre';
        assert s == [s[0]] + s[1..];
        assert pre[|pre| - 1] == c by {
          if pre' != [] {
            assert pre[|pre| - 1] == pre'[|pre'| - 1];
          }
        }
      } else if |rest| == 1 {
        pre := [];
        assert s == [s[0]] + s[1..];
      } else {
        pre := [s[0]] + pre';
        assert s == [s[0]] + s[1..];
        assert pre[|pre| - 1] == pre'[|pre'| - 1];
      }
    }
  }

  /** Joining the pieces of a split gives the string back. */
  lemma {:induction false} JoinSplit(s: string, c: char)
    ensures Join(Split(s, c), c) == s
  {
    if |s| > 0 {
      JoinSplit(s[1..], c);
      var rest := Split(s[1..], c);
      if s[0] == c {
        assert Join([""] + rest, c) == "" + [c] + Join(rest, c);
      } else {
        var r := [[s[0]] + rest[0]] + rest[1..];
        if |rest| == 1 {
          assert Join(r, c) == [s[0]] + rest[0];
        } else {
          assert rest == [rest[0]] + rest[1..];
          assert Join(rest, c) == rest[0] + [c] + Join(rest[1..], c);
          assert r[1..] == rest[1..];
          assert Join(r, c) == [s[0]] + rest[0] + [c] + Join(rest[1..], c);
        }
      }
      assert [s[0]] + s[1..] == s;
    }
  }

  // ---------------------------------------------------------------------
  // Searching
  // ---------------------------------------------------------------------

  /** `s.startsWith(p)`. */
  predicate StartsWith(s: string, p: string) {
    |p| <= |s| && s[..|p|] == p
  }

  /** `t` occurs in `s` at position `i`. */
  predicate OccursAt(s: string, t: string, i: nat) {
    i + |t| <= |s| && s[i..i + |t|] == t
  }

  /** `s.indexOf(t, from)`: the first position at or after `from` where `t`
      occurs. */
  function IndexOfFrom(s: string, t: string, from: nat): (r: Option<nat>)
    requires from <= |s|
    ensures r.Some? ==> from <= r.value && OccursAt(s, t, r.value)
    ensures forall j: nat :: from <= j && (r.None? || j < r.value) ==> !OccursAt(s, t, j)
    decreases |s| - from
  {
    if StartsWith(s[from..], t) then
      assert s[from..][..|t|] == s[from..from + |t|];
      Some(from)
    else
      assert !OccursAt(s, t, from) by {
        if from + |t| <= |s| {
          assert s[from..][..|t|] == s[from..from + |t|];
        }
      }
      if from == |s| then
        assert forall j: nat :: from <= j ==> !OccursAt(s, t, j) by {
          forall j: nat | from <= j ensures !OccursAt(s, t, j) {
            if j > from {
              assert j + |t| > |s|;
            }
          }
        }
        None
      else IndexOfFrom(s, t, from + 1)
  }

  /** `s.indexOf(t)`. */
  function IndexOf(s: string, t: string): (r: Option<nat>)
    ensures r.Some? ==> OccursAt(s, t, r.value)
    ensures forall j: nat :: (r.None? || j < r.value) ==> !OccursAt(s, t, j)
  {
    IndexOfFrom(s, t, 0)
  }

  /** `s.includes(t)`. */
  predicate Contains(s: string, t: string) {
    IndexOf(s, t).Some?
  }

  /** `s.replace(pattern, with)` for a string pattern: only the first
      occurrence is replaced. */
  function ReplaceFirst(s: string, pattern: string, with: string): (r: string)
    ensures !Contains(s, pattern) ==> r == s
    ensures StartsWith(s, pattern) ==> r == with + s[|pattern|..]
  {
    match IndexOf(s, pattern)
    case None => s
    case Some(i) => s[..i] + with + s[i + |pattern|..]
  }

  // ---------------------------------------------------------------------
  // Digit runs and `parseInt(…, 10)`
  // ---------------------------------------------------------------------

  /** The end of the maximal run of characters satisfying `\d` from `i`. */
  function DigitEnd(s: string, i: nat): (j: nat)
    requires i <= |s|
    ensures i <= j <= |s|
    ensures forall k :: i <= k < j ==> IsDigit(s[k])
    ensures j == |s| || !IsDigit(s[j])
    decreases |s| - i
  {
    if i < |s| && IsDigit(s[i]) then DigitEnd(s, i + 1) else i
  }

  /** The end of the maximal run of characters satisfying `\s` from `i`. */
  function SpaceEnd(s: string, i: nat): (j: nat)
    requires i <= |s|
    ensures i <= j <= |s|
    ensures j == |s| || !IsSpace(s[j])
    decreases |s| - i
  {
    if i < |s| && IsSpace(s[i]) then SpaceEnd(s, i + 1) else i
  }

  /** The end of the maximal run of characters satisfying `\w` from `i`. */
  function WordEnd(s: string, i: nat): (j: nat)
    requires i <= |s|
    ensures i <= j <= |s|
    ensures forall k :: i <= k < j ==> IsWordChar(s[k])
    ensures j == |s| || !IsWordChar(s[j])
    decreases |s| - i
  {
    if i < |s| && IsWordChar(s[i]) then WordEnd(s, i + 1) else i
  }

  /** The value `parseInt(ds, 10)` gives for a string of decimal digits. */
  function DecimalValue(ds: string): nat
    requires forall k :: 0 <= k < |ds| ==> IsDigit(ds[k])
  {
    if |ds| == 0 then 0
    else
      assert IsDigit(ds[|ds| - 1]);
      10 * DecimalValue(ds[..|ds| - 1]) + (ds[|ds| - 1] as int - '0' as int)
  }
}
