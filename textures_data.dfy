/** The row parser of `src/parseTextures/TexturesData.ts`: header detection,
    row building, the group filter, the size lookup and its pattern, the
    power-of-two shape filter and the deduplication of rows. The
    module-level `headers` of the source is an explicit in/out parameter of
    `ParseTextures`. */
module TexturesData {
  import opened Wrappers
  import opened Text

  /** The four values of `filterMode`. */
  datatype FilterMode = All | PowerOfTwo | NotPowerOfTwo | OneSidePowerOfTwo

  /** One parsed row (a `ParsedTexture` before its derived fields): the value
      stored under each key, and `columns`, every trimmed field in order. */
  datatype Texture = Texture(fields: map<string, string>, columns: seq<string>)

  // ---------------------------------------------------------------------
  // isPowerOfTwo
  // ---------------------------------------------------------------------

  const TwoPow32: nat := 0x1_0000_0000

  /** The bitwise AND of two naturals. */
  function BitAnd(a: nat, b: nat): nat {
    if a == 0 || b == 0 then 0
    else 2 * BitAnd(a / 2, b / 2) + (if a % 2 == 1 && b % 2 == 1 then 1 else 0)
  }

  /** `isPowerOfTwo(num)`: `(num & (num - 1)) === 0 && num > 0`, where `&`
      works on the 32-bit patterns of its operands (so `num - 1 == -1` is the
      all-ones pattern). */
  predicate IsPowerOfTwo(n: nat) {
    BitAnd(n % TwoPow32, (n - 1) % TwoPow32) == 0 && n > 0
  }

  /** 2 to the power k. */
  function Pow2(k: nat): (r: nat)
    ensures r >= 1
  {
    if k == 0 then 1 else 2 * Pow2(k - 1)
  }

  lemma {:induction false} BitAndSelf(m: nat)
    ensures BitAnd(m, m) == m
  {
    if m > 0 {
      BitAndSelf(m / 2);
    }
  }

  /** The bit trick on naturals: `n & (n - 1)` is zero exactly when n is a
      power of two. */
  lemma {:induction false} BitTrick(n: nat)
    requires n >= 1
    ensures BitAnd(n, n - 1) == 0 <==> exists k: nat :: n == Pow2(k)
  {
    if n == 1 {
      assert n == Pow2(0);
    } else if n % 2 == 0 {
      var m := n / 2;
      BitTrick(m);
      assert (n - 1) / 2 == m - 1 && (n - 1) % 2 == 1;
      assert BitAnd(n, n - 1) == 2 * BitAnd(m, m - 1);
      if BitAnd(n, n - 1) == 0 {
        var k: nat :| m == Pow2(k);
        assert n == Pow2(k + 1);
      } else {
        forall k: nat ensures n != Pow2(k) {
          if k > 0 {
            assert Pow2(k) == 2 * Pow2(k - 1);
          }
        }
      }
    } else {
      var m := n / 2;
      assert m >= 1 && (n - 1) / 2 == m && (n - 1) % 2 == 0;
      BitAndSelf(m);
      assert BitAnd(n, n - 1) == 2 * m;
      forall k: nat ensures n != Pow2(k) {
        if k > 0 {
          assert Pow2(k) == 2 * Pow2(k - 1);
        }
      }
    }
  }

  /** Below 2^32 the 32-bit bit trick decides exactly the powers of two;
      zero never passes. */
  lemma IsPowerOfTwoExact(n: nat)
    requires n < TwoPow32
    ensures IsPowerOfTwo(n) <==> exists k: nat :: n == Pow2(k)
  {
    if n == 0 {
      assert !IsPowerOfTwo(n);
    } else {
      assert n % TwoPow32 == n && (n - 1) % TwoPow32 == n - 1;
      BitTrick(n);
    }
  }

  // ---------------------------------------------------------------------
  // The shape filter
  // ---------------------------------------------------------------------

  /** The shape filter on whether the width and the height are powers of
      two: true when the row survives. */
  predicate ShapeAdmits(mode: FilterMode, widthPow2: bool, heightPow2: bool) {
    !((mode == PowerOfTwo && !(widthPow2 && heightPow2)) ||
      (mode == NotPowerOfTwo && (widthPow2 || heightPow2)) ||
      (mode == OneSidePowerOfTwo && !(widthPow2 != heightPow2)))
  }

  /** `all` admits every shape, and each shape is admitted by exactly one of
      the other three modes. */
  lemma ShapeFilterPartition(w: bool, h: bool)
    ensures ShapeAdmits(All, w, h)
    ensures ShapeAdmits(PowerOfTwo, w, h) <==> w && h
    ensures ShapeAdmits(NotPowerOfTwo, w, h) <==> !w && !h
    ensures ShapeAdmits(OneSidePowerOfTwo, w, h) <==> w != h
    ensures (if ShapeAdmits(PowerOfTwo, w, h) then 1 else 0)
          + (if ShapeAdmits(NotPowerOfTwo, w, h) then 1 else 0)
          + (if ShapeAdmits(OneSidePowerOfTwo, w, h) then 1 else 0) == 1
  {
  }

  // ---------------------------------------------------------------------
  // The size pattern /(\d+)\s*x\s*(\d+)/i
  // ---------------------------------------------------------------------

  /** The pattern anchored at position i: a maximal digit run, optional white
      space, `x` or `X`, optional white space, and a maximal digit run; the
      two runs' decimal values. Backtracking never helps this pattern: a
      shorter run leaves a digit where white space or `x` is needed. */
  function SizeMatchAt(s: string, i: nat): Option<(nat, nat)>
    requires i <= |s|
  {
    var j := DigitEnd(s, i);
    var k := SpaceEnd(s, j);
    if j == i || k == |s| || (s[k] != 'x' && s[k] != 'X') then None
    else
      var m := SpaceEnd(s, k + 1);
      var n := DigitEnd(s, m);
      if n == m then None
      else Some((DecimalValue(s[i..j]), DecimalValue(s[m..n])))
  }

  /** The leftmost match at or after position i. */
  function SizeMatchFrom(s: string, i: nat): Option<(nat, nat)>
    requires i <= |s|
    decreases |s| - i
  {
    if SizeMatchAt(s, i).Some? then SizeMatchAt(s, i)
    else if i == |s| then None
    else SizeMatchFrom(s, i + 1)
  }

  /** `sizeInfo.match(/(\d+)\s*x\s*(\d+)/i)` followed by `parseInt` of the
      two groups: the width and height, or None when nothing matches. */
  function ParseSize(s: string): Option<(nat, nat)> {
    SizeMatchFrom(s, 0)
  }

  /** Inside a digit run the anchored pattern matches where it matches at the
      run's start. */
  lemma SizeMatchInsideRun(s: string, i: nat)
    requires 0 < i < |s| && IsDigit(s[i - 1]) && IsDigit(s[i])
    ensures SizeMatchAt(s, i - 1).Some? == SizeMatchAt(s, i).Some?
  {
    assert DigitEnd(s, i - 1) == DigitEnd(s, i);
  }

  lemma {:induction false} SizeMatchFromFinds(s: string, i: nat) returns (p: nat)
    requires i <= |s|
    requires SizeMatchFrom(s, i).Some?
    ensures i <= p < |s| && SizeMatchAt(s, p) == SizeMatchFrom(s, i)
    ensures forall q :: i <= q < p ==> SizeMatchAt(s, q).None?
    decreases |s| - i
  {
    if SizeMatchAt(s, i).Some? {
      p := i;
      assert DigitEnd(s, i) > i;
    } else {
      p := SizeMatchFromFinds(s, i + 1);
      forall q | i <= q < p
        ensures SizeMatchAt(s, q).None?
      {
        if q > i {
          assert i + 1 <= q;
        }
      }
    }
  }

  /** The matched width is a whole maximal digit run: the match starts at
      the beginning of a run, no earlier position matches, and the match is
      what the anchored pattern gives there. */
  lemma ParseSizeAtRunStart(s: string) returns (p: nat)
    requires ParseSize(s).Some?
    ensures p < |s| && IsDigit(s[p]) && (p == 0 || !IsDigit(s[p - 1]))
    ensures SizeMatchAt(s, p) == ParseSize(s)
    ensures forall q :: 0 <= q < p ==> SizeMatchAt(s, q).None?
  {
    p := SizeMatchFromFinds(s, 0);
    assert DigitEnd(s, p) > p;
    if p > 0 && IsDigit(s[p - 1]) {
      SizeMatchInsideRun(s, p);
      assert false;
    }
  }

  /** The decimal digits of n, without leading zeros ("0" for zero). */
  function DecimalString(n: nat): (r: string)
    ensures |r| >= 1
    ensures forall k :: 0 <= k < |r| ==> IsDigit(r[k])
    ensures DecimalValue(r) == n
  {
    var d := ((n % 10) + '0' as int) as char;
    if n < 10 then
      assert [d][..0] == [];
      [d]
    else
      var r := DecimalString(n / 10) + [d];
      assert r[..|r| - 1] == DecimalString(n / 10);
      r
  }

  /** The anchored pattern read off the positions of its pieces. */
  lemma SizeMatchAtIs(s: string, i: nat, j: nat, k: nat, m: nat, n: nat)
    requires i < j <= k < m <= n <= |s|
    requires DigitEnd(s, i) == j && SpaceEnd(s, j) == k && (s[k] == 'x' || s[k] == 'X')
    requires SpaceEnd(s, k + 1) == m && DigitEnd(s, m) == n && m < n
    ensures SizeMatchAt(s, i) == Some((DecimalValue(s[i..j]), DecimalValue(s[m..n])))
  {
  }

  /** A size written as `W x H` (any white space around `x`, either case of
      `x`) parses back to (W, H). */
  lemma ParseSizeRoundTrip(w: nat, h: nat, before: string, x: char, after: string)
    requires x == 'x' || x == 'X'
    requires forall k :: 0 <= k < |before| ==> IsSpace(before[k])
    requires forall k :: 0 <= k < |after| ==> IsSpace(after[k])
    ensures ParseSize(DecimalString(w) + before + [x] + after + DecimalString(h)) == Some((w, h))
  {
    var dw, dh := DecimalString(w), DecimalString(h);
    var s := dw + before + [x] + after + dh;
    WrittenSizeMatches(s, dw, before, x, after, dh);
    assert SizeMatchAt(s, 0) == Some((w, h));
  }

  /** The anchored pattern matches a written size at its start. */
  lemma WrittenSizeMatches(s: string, dw: string, before: string, x: char, after: string, dh: string)
    requires s == dw + before + [x] + after + dh
    requires x == 'x' || x == 'X'
    requires |dw| >= 1 && forall q :: 0 <= q < |dw| ==> IsDigit(dw[q])
    requires |dh| >= 1 && forall q :: 0 <= q < |dh| ==> IsDigit(dh[q])
    requires forall k :: 0 <= k < |before| ==> IsSpace(before[k])
    requires forall k :: 0 <= k < |after| ==> IsSpace(after[k])
    ensures SizeMatchAt(s, 0) == Some((DecimalValue(dw), DecimalValue(dh)))
  {
    var front := dw + before;
    var f := front + [x] + after;
    assert s == f + dh;
    WidthAndX(s, dw, before, x, after, dh);
    SpacesAfter(s, front, x, after, dh);
    HeightRun(s, f, dh);
    SizeMatchAtIs(s, 0, |dw|, |front|, |f|, |s|);
  }

  /** The width's digits, the white space and the `x`. */
  lemma WidthAndX(s: string, dw: string, before: string, x: char, after: string, dh: string)
    requires s == dw + before + [x] + after + dh
    requires x == 'x' || x == 'X'
    requires forall q :: 0 <= q < |dw| ==> IsDigit(dw[q])
    requires forall k :: 0 <= k < |before| ==> IsSpace(before[k])
    ensures DigitEnd(s, 0) == |dw| && s[0..|dw|] == dw
    ensures SpaceEnd(s, |dw|) == |dw| + |before| && s[|dw| + |before|] == x
  {
    WidthRun(s, dw, before, x, after, dh);
    SpacesBefore(s, dw, before, x, after, dh);
  }

  lemma WidthRun(s: string, dw: string, before: string, x: char, after: string, dh: string)
    requires s == dw + before + [x] + after + dh
    requires x == 'x' || x == 'X'
    requires forall q :: 0 <= q < |dw| ==> IsDigit(dw[q])
    requires forall q :: 0 <= q < |before| ==> IsSpace(before[q])
    ensures DigitEnd(s, 0) == |dw|
  {
    forall q | 0 <= q < |dw| ensures IsDigit(s[q]) {
      assert s[q] == dw[q];
    }
    assert s[|dw|] == (before + [x])[0];
    DigitEndIs(s, 0, |dw|);
  }

  lemma SpacesBefore(s: string, dw: string, before: string, x: char, after: string, dh: string)
    requires s == dw + before + [x] + after + dh
    requires x == 'x' || x == 'X'
    requires forall q :: 0 <= q < |before| ==> IsSpace(before[q])
    ensures SpaceEnd(s, |dw|) == |dw| + |before|
    ensures s[|dw| + |before|] == x
  {
    forall q | |dw| <= q < |dw| + |before| ensures IsSpace(s[q]) {
      assert s[q] == before[q - |dw|];
    }
    SpaceEndIs(s, |dw|, |dw| + |before|);
  }

  lemma SpacesAfter(s: string, front: string, x: char, after: string, dh: string)
    requires s == front + [x] + after + dh
    requires |dh| >= 1 && IsDigit(dh[0])
    requires forall q :: 0 <= q < |after| ==> IsSpace(after[q])
    ensures SpaceEnd(s, |front| + 1) == |front| + 1 + |after|
  {
    var k := |front|;
    forall q | k + 1 <= q < k + 1 + |after| ensures IsSpace(s[q]) {
      assert s[q] == after[q - k - 1];
    }
    assert s[k + 1 + |after|] == dh[0];
    SpaceEndIs(s, k + 1, k + 1 + |after|);
  }

  lemma HeightRun(s: string, front: string, dh: string)
    requires s == front + dh
    requires forall q :: 0 <= q < |dh| ==> IsDigit(dh[q])
    ensures DigitEnd(s, |front|) == |s| && s[|front|..|s|] == dh
  {
    forall q | |front| <= q < |s| ensures IsDigit(s[q]) {
      assert s[q] == dh[q - |front|];
    }
    DigitEndIs(s, |front|, |s|);
  }

  lemma DigitEndIs(s: string, i: nat, j: nat)
    requires i <= j <= |s|
    requires forall q :: i <= q < j ==> IsDigit(s[q])
    requires j == |s| || !IsDigit(s[j])
    ensures DigitEnd(s, i) == j
    decreases j - i
  {
    if i < j {
      DigitEndIs(s, i + 1, j);
    }
  }

  lemma SpaceEndIs(s: string, i: nat, j: nat)
    requires i <= j <= |s|
    requires forall q :: i <= q < j ==> IsSpace(s[q])
    requires j == |s| || !IsSpace(s[j])
    ensures SpaceEnd(s, i) == j
    decreases j - i
  {
    if i < j {
      SpaceEndIs(s, i + 1, j);
    }
  }

  // ---------------------------------------------------------------------
  // Lines and the header line
  // ---------------------------------------------------------------------

  /** `data.split("\n").map((line) => line.trim()).filter(Boolean)`. */
  function Lines(data: string): (r: seq<string>)
    ensures forall i :: 0 <= i < |r| ==> r[i] != []
    ensures forall x :: x in r <==> x != [] && x in TrimAll(Split(data, '\n'))
  {
    NonEmpty(TrimAll(Split(data, '\n')))
  }

  /** The kept lines in their order: line j is the trimmed piece `idx[j]`
      of the split, the positions increase, and every piece that is not
      blank once trimmed is kept. */
  lemma LinesOrder(data: string) returns (idx: seq<nat>)
    ensures var pieces := Split(data, '\n');
      && |idx| == |Lines(data)|
      && (forall j :: 0 <= j < |idx| ==> idx[j] < |pieces| && Lines(data)[j] == Trim(pieces[idx[j]]))
      && (forall j, k :: 0 <= j < k < |idx| ==> idx[j] < idx[k])
      && (forall i :: 0 <= i < |pieces| && Trim(pieces[i]) != [] ==> i in idx)
  {
    idx := NonEmptyOrder(TrimAll(Split(data, '\n')));
  }

  /** A header line holds both `Name` and `LODGroup` (case-sensitive). */
  predicate IsHeaderLine(line: string) {
    Contains(line, "Name") && Contains(line, "LODGroup")
  }

  /** `lines.findIndex(IsHeaderLine)`, with None for -1. */
  function HeaderIndex(lines: seq<string>): (r: Option<nat>)
    ensures r.Some? ==> r.value < |lines| && IsHeaderLine(lines[r.value])
    ensures forall j :: 0 <= j < |lines| && (r.None? || j < r.value) ==> !IsHeaderLine(lines[j])
  {
    if |lines| == 0 then None
    else if IsHeaderLine(lines[0]) then Some(0)
    else match HeaderIndex(lines[1..])
      case None => None
      case Some(i) => Some(i + 1)
  }

  /** `line.split(",").map((h) => h.trim())`. */
  function HeaderNames(line: string): (r: seq<string>)
    ensures |r| >= 1
  {
    TrimAll(Split(line, ','))
  }

  // ---------------------------------------------------------------------
  // Building one row
  // ---------------------------------------------------------------------

  /** `parts[i]?.trim() ?? ""`. */
  function FieldAt(parts: seq<string>, i: nat): string {
    if i < |parts| then Trim(parts[i]) else ""
  }

  /** A header naming the LOD group: its lower-case form holds `lodgroup`. */
  predicate IsGroupHeader(key: string) {
    Contains(ToLower(key), "lodgroup")
  }

  /** The value for each of the first n headers. */
  function Values(parts: seq<string>, n: nat): (r: seq<string>)
    ensures |r| == n && forall i :: 0 <= i < n ==> r[i] == FieldAt(parts, i)
  {
    seq(n, i requires 0 <= i < n => FieldAt(parts, i))
  }

  /** Which keys are group headers. */
  function GroupFlags(keys: seq<string>): (r: seq<bool>)
    ensures |r| == |keys| && forall i :: 0 <= i < |keys| ==> r[i] == IsGroupHeader(keys[i])
  {
    seq(|keys|, i requires 0 <= i < |keys| => IsGroupHeader(keys[i]))
  }

  /** The fields after the first n keys have been assigned: a group key
      first copies its value under `Group`, then the value is stored under
      the key (a later write to the same key wins). */
  function Assign(keys: seq<string>, isGroup: seq<bool>, values: seq<string>, n: nat): map<string, string>
    requires n <= |keys| == |isGroup| == |values|
  {
    if n == 0 then map[]
    else
      var m := Assign(keys, isGroup, values, n - 1);
      var m1 := if isGroup[n - 1] then m["Group" := values[n - 1]] else m;
      m1[keys[n - 1] := values[n - 1]]
  }

  /** The fields of a row: each header's key is `header.trim()`. */
  function FieldsOf(headers: seq<string>, parts: seq<string>): map<string, string> {
    var keys := TrimAll(headers);
    Assign(keys, GroupFlags(keys), Values(parts, |keys|), |keys|)
  }

  /** The texture built from a row's comma-separated parts. */
  function RowOf(headers: seq<string>, parts: seq<string>): Texture {
    Texture(FieldsOf(headers, parts), TrimAll(parts))
  }

  /** The texture object filled field by field, as the `headers.forEach`
      loop does, followed by `columns`. */
  method BuildTexture(headers: seq<string>, parts: seq<string>) returns (t: Texture)
    ensures t == RowOf(headers, parts)
    ensures |t.columns| == |parts| && forall i :: 0 <= i < |parts| ==> t.columns[i] == Trim(parts[i])
  {
    ghost var keys := TrimAll(headers);
    ghost var isGroup := GroupFlags(keys);
    ghost var values := Values(parts, |keys|);
    var fields: map<string, string> := map[];
    for i := 0 to |headers|
      invariant fields == Assign(keys, isGroup, values, i)
    {
      var key := Trim(headers[i]);
      var value := if i < |parts| then Trim(parts[i]) else "";
      assert key == keys[i] && value == values[i] && IsGroupHeader(key) == isGroup[i];
      ghost var before := fields;
      if IsGroupHeader(key) {
        fields := fields["Group" := value];
      }
      fields := fields[key := value];
      assert fields == Assign(keys, isGroup, values, i + 1) by {
        assert Assign(keys, isGroup, values, i + 1) ==
          (if isGroup[i] then before["Group" := values[i]] else before)[keys[i] := values[i]];
      }
    }
    assert fields == FieldsOf(headers, parts);
    t := Texture(fields, TrimAll(parts));
  }

  /** The keys are the assigned keys, plus `Group` when a group key was
      assigned. */
  lemma {:induction false} AssignKeys(keys: seq<string>, isGroup: seq<bool>, values: seq<string>, n: nat)
    requires n <= |keys| == |isGroup| == |values|
    ensures Assign(keys, isGroup, values, n).Keys ==
      (set i | 0 <= i < n :: keys[i]) + (if true in isGroup[..n] then {"Group"} else {})
  {
    if n > 0 {
      AssignKeys(keys, isGroup, values, n - 1);
      assert isGroup[..n] == isGroup[..n - 1] + [isGroup[n - 1]];
      assert (set i | 0 <= i < n :: keys[i]) == (set i | 0 <= i < n - 1 :: keys[i]) + {keys[n - 1]};
    }
  }

  /** The value under a key is the value of the last assignment to it; for
      the key `Group`, a later group key also assigns it. */
  lemma {:induction false} AssignLastWriteWins(keys: seq<string>, isGroup: seq<bool>, values: seq<string>, n: nat, i: nat)
    requires i < n <= |keys| == |isGroup| == |values|
    requires forall j :: i < j < n ==> keys[j] != keys[i] && (keys[i] == "Group" ==> !isGroup[j])
    ensures keys[i] in Assign(keys, isGroup, values, n)
    ensures Assign(keys, isGroup, values, n)[keys[i]] == values[i]
  {
    if i < n - 1 {
      AssignLastWriteWins(keys, isGroup, values, n - 1, i);
    }
  }

  /** `Group` holds the value of the last group key, when no later key is
      itself `Group`. */
  lemma {:induction false} AssignGroup(keys: seq<string>, isGroup: seq<bool>, values: seq<string>, n: nat, g: nat)
    requires g < n <= |keys| == |isGroup| == |values|
    requires isGroup[g]
    requires forall j :: g < j < n ==> !isGroup[j] && keys[j] != "Group"
    ensures "Group" in Assign(keys, isGroup, values, n)
    ensures Assign(keys, isGroup, values, n)["Group"] == values[g]
  {
    if g < n - 1 {
      AssignGroup(keys, isGroup, values, n - 1, g);
    }
  }

  /** A row's keys are the trimmed headers, plus `Group` exactly when some
      header is a group header. */
  lemma RowKeys(headers: seq<string>, parts: seq<string>)
    ensures var keys := TrimAll(headers);
      RowOf(headers, parts).fields.Keys ==
        (set i | 0 <= i < |keys| :: keys[i]) + (if true in GroupFlags(keys) then {"Group"} else {})
  {
    var keys := TrimAll(headers);
    AssignKeys(keys, GroupFlags(keys), Values(parts, |keys|), |keys|);
    assert GroupFlags(keys)[..|keys|] == GroupFlags(keys);
  }

  /** Under a header's key is the trimmed field of the last header with
      that key, or "" when the row is too short for it; a header named
      `Group` keeps its field only when no group header follows it. */
  lemma RowFieldValue(headers: seq<string>, parts: seq<string>, i: nat)
    requires i < |headers|
    requires forall j :: i < j < |headers| ==>
      Trim(headers[j]) != Trim(headers[i]) &&
      (Trim(headers[i]) == "Group" ==> !IsGroupHeader(Trim(headers[j])))
    ensures Trim(headers[i]) in RowOf(headers, parts).fields
    ensures RowOf(headers, parts).fields[Trim(headers[i])] == FieldAt(parts, i)
  {
    var keys := TrimAll(headers);
    AssignLastWriteWins(keys, GroupFlags(keys), Values(parts, |keys|), |keys|, i);
  }

  /** The header names read from a header line are already trimmed, so each
      is a key of every row built under them: the lookups behind the
      deduplication key read stored fields, never `undefined`. */
  lemma HeaderNamesAreKeys(line: string, parts: seq<string>)
    ensures var headers := HeaderNames(line);
      forall i :: 0 <= i < |headers| ==>
        headers[i] in RowOf(headers, parts).fields &&
        Lookup(RowOf(headers, parts).fields, headers[i]) == RowOf(headers, parts).fields[headers[i]]
  {
    var headers := HeaderNames(line);
    forall i | 0 <= i < |headers| ensures TrimAll(headers)[i] == headers[i] {
      TrimIdempotent(Split(line, ',')[i]);
    }
    assert TrimAll(headers) == headers;
    RowKeys(headers, parts);
    forall i | 0 <= i < |headers|
      ensures headers[i] in (set i | 0 <= i < |headers| :: headers[i])
    {
    }
  }

  /** `Group` holds the field of the last group header, when no header
      after it is itself named `Group`. */
  lemma RowGroup(headers: seq<string>, parts: seq<string>, g: nat)
    requires g < |headers|
    requires IsGroupHeader(Trim(headers[g]))
    requires forall j :: g < j < |headers| ==>
      !IsGroupHeader(Trim(headers[j])) && Trim(headers[j]) != "Group"
    ensures "Group" in RowOf(headers, parts).fields
    ensures RowOf(headers, parts).fields["Group"] == FieldAt(parts, g)
  {
    var keys := TrimAll(headers);
    AssignGroup(keys, GroupFlags(keys), Values(parts, |keys|), |keys|, g);
  }

  // ---------------------------------------------------------------------
  // Screening one row
  // ---------------------------------------------------------------------

  const AllGroups: string := "All Groups"

  /** The group filter: the row has a `Group`, and either nothing is
      selected, `All Groups` is selected, or its group is. */
  predicate GroupSelected(t: Texture, selectedGroups: seq<string>) {
    "Group" in t.fields &&
    !(|selectedGroups| > 0 && AllGroups !in selectedGroups && t.fields["Group"] !in selectedGroups)
  }

  /** A header naming the cooked size: its lower-case form holds
      `maxallowedsize` or `cooked/ondisk`. */
  predicate IsCookedHeader(h: string) {
    Contains(ToLower(h), "maxallowedsize") || Contains(ToLower(h), "cooked/ondisk")
  }

  /** `headers.find(IsCookedHeader)`. */
  function CookedKey(headers: seq<string>): (r: Option<string>)
    ensures r.Some? ==> r.value in headers && IsCookedHeader(r.value)
    ensures r.None? ==> forall h :: h in headers ==> !IsCookedHeader(h)
    ensures r.Some? ==> exists i :: 0 <= i < |headers| && headers[i] == r.value && (forall j :: 0 <= j < i ==> !IsCookedHeader(headers[j]))
  {
    if |headers| == 0 then None
    else if IsCookedHeader(headers[0]) then Some(headers[0])
    else
      var r := CookedKey(headers[1..]);
      assert r.Some? ==> exists i :: 0 <= i < |headers| && headers[i] == r.value && (forall j :: 0 <= j < i ==> !IsCookedHeader(headers[j])) by {
        if r.Some? {
          var i :| 0 <= i < |headers[1..]| && headers[1..][i] == r.value &&
            (forall j :: 0 <= j < i ==> !IsCookedHeader(headers[1..][j]));
          assert headers[i + 1] == r.value;
          forall j | 0 <= j < i + 1 ensures !IsCookedHeader(headers[j]) {
            if j > 0 {
              assert headers[j] == headers[1..][j - 1];
            }
          }
        }
      }
      r
  }

  /** `texture[k]`, where a missing key reads as `undefined`, which joins
      and tests like the empty string. */
  function Lookup(fields: map<string, string>, k: string): string {
    if k in fields then fields[k] else ""
  }

  /** `sizeInfo`: the value under the cooked-size header, or "" without one. */
  function SizeInfo(headers: seq<string>, t: Texture): string {
    match CookedKey(headers)
    case None => ""
    case Some(k) => Lookup(t.fields, k)
  }

  /** The group, size and shape checks a built row must pass. */
  predicate Screen(headers: seq<string>, t: Texture, mode: FilterMode, selectedGroups: seq<string>) {
    GroupSelected(t, selectedGroups) &&
    SizeInfo(headers, t) != "" &&
    match ParseSize(SizeInfo(headers, t))
    case None => false
    case Some(wh) => ShapeAdmits(mode, IsPowerOfTwo(wh.0), IsPowerOfTwo(wh.1))
  }

  /** `headers.map((h) => texture[h]).join("|")`. */
  function DedupKey(headers: seq<string>, t: Texture): string {
    Join(seq(|headers|, i requires 0 <= i < |headers| => Lookup(t.fields, headers[i])), '|')
  }

  /** A data line's verdict before deduplication: its key and texture, or
      None when it is too short or fails a check. */
  function Candidate(headers: seq<string>, line: string, mode: FilterMode, selectedGroups: seq<string>)
    : Option<(string, Texture)>
  {
    var parts := Split(line, ',');
    if |parts| < |headers| - 1 then None
    else
      var t := RowOf(headers, parts);
      if Screen(headers, t, mode, selectedGroups) then Some((DedupKey(headers, t), t)) else None
  }

  function Candidates(headers: seq<string>, dataLines: seq<string>, mode: FilterMode, selectedGroups: seq<string>)
    : (r: seq<Option<(string, Texture)>>)
    ensures |r| == |dataLines|
    ensures forall i :: 0 <= i < |r| ==> r[i] == Candidate(headers, dataLines[i], mode, selectedGroups)
  {
    seq(|dataLines|, i requires 0 <= i < |dataLines| => Candidate(headers, dataLines[i], mode, selectedGroups))
  }

  // ---------------------------------------------------------------------
  // Deduplication
  // ---------------------------------------------------------------------

  function KeysOf(kept: seq<(string, Texture)>): set<string> {
    set i | 0 <= i < |kept| :: kept[i].0
  }

  /** The admitted candidates whose key was not seen before, in order: the
      rows the `seen` set lets through. */
  function FirstOccurrences(cands: seq<Option<(string, Texture)>>): (r: seq<(string, Texture)>)
    ensures forall j, j' :: 0 <= j < j' < |r| ==> r[j].0 != r[j'].0
    ensures forall j :: 0 <= j < |r| ==> Some(r[j]) in cands
  {
    if |cands| == 0 then []
    else
      var prev := FirstOccurrences(cands[..|cands| - 1]);
      match cands[|cands| - 1]
      case None => prev
      case Some(c) => if c.0 in KeysOf(prev) then prev else prev + [c]
  }

  function Textures(kept: seq<(string, Texture)>): (r: seq<Texture>)
    ensures |r| == |kept| && forall j :: 0 <= j < |kept| ==> r[j] == kept[j].1
  {
    seq(|kept|, j requires 0 <= j < |kept| => kept[j].1)
  }

  lemma KeysOfAppend(kept: seq<(string, Texture)>, c: (string, Texture))
    ensures KeysOf(kept + [c]) == KeysOf(kept) + {c.0}
  {
    var r := kept + [c];
    assert r[|kept|].0 == c.0;
    forall x | x in KeysOf(kept) ensures x in KeysOf(r) {
      var i :| 0 <= i < |kept| && kept[i].0 == x;
      assert r[i].0 == x;
    }
  }

  lemma TexturesAppend(kept: seq<(string, Texture)>, c: (string, Texture))
    ensures Textures(kept + [c]) == Textures(kept) + [c.1]
  {
  }

  /** One more candidate: kept when it is admitted and its key is new. */
  lemma FirstOccurrencesStep(cands: seq<Option<(string, Texture)>>, i: nat)
    requires i < |cands|
    ensures FirstOccurrences(cands[..i + 1]) ==
      if cands[i].None? || cands[i].value.0 in KeysOf(FirstOccurrences(cands[..i]))
      then FirstOccurrences(cands[..i])
      else FirstOccurrences(cands[..i]) + [cands[i].value]
  {
    assert cands[..i + 1][..i] == cands[..i];
  }

  /** Every admitted candidate's key is among the kept ones. */
  lemma {:induction false} FirstOccurrencesComplete(cands: seq<Option<(string, Texture)>>)
    ensures forall k :: 0 <= k < |cands| && cands[k].Some? ==> cands[k].value.0 in KeysOf(FirstOccurrences(cands))
  {
    if |cands| > 0 {
      var n := |cands| - 1;
      var init := cands[..n];
      var prev := FirstOccurrences(init);
      FirstOccurrencesComplete(init);
      assert forall k :: 0 <= k < n ==> cands[k] == init[k];
      if cands[n].Some? && cands[n].value.0 !in KeysOf(prev) {
        KeysOfAppend(prev, cands[n].value);
      }
    }
  }

  /** Where each kept row comes from: strictly increasing positions among
      the candidates, and no earlier candidate has the same key. */
  lemma {:induction false} FirstOccurrencesOrigins(cands: seq<Option<(string, Texture)>>) returns (idx: seq<nat>)
    ensures |idx| == |FirstOccurrences(cands)|
    ensures forall j :: 0 <= j < |idx| ==> idx[j] < |cands| && cands[idx[j]] == Some(FirstOccurrences(cands)[j])
    ensures forall j, j' :: 0 <= j < j' < |idx| ==> idx[j] < idx[j']
    ensures forall j, k :: 0 <= j < |idx| && 0 <= k < idx[j] && cands[k].Some? ==>
              cands[k].value.0 != FirstOccurrences(cands)[j].0
  {
    if |cands| == 0 {
      idx := [];
    } else {
      var n := |cands| - 1;
      var init := cands[..n];
      var prev := FirstOccurrences(init);
      var pidx := FirstOccurrencesOrigins(init);
      assert forall k :: 0 <= k < n ==> cands[k] == init[k];
      if cands[n].None? || cands[n].value.0 in KeysOf(prev) {
        assert FirstOccurrences(cands) == prev;
        idx := pidx;
      } else {
        var c := cands[n].value;
        idx := pidx + [n];
        var r := prev + [c];
        assert FirstOccurrences(cands) == r;
        FirstOccurrencesComplete(init);
        forall j, k | 0 <= j < |idx| && 0 <= k < idx[j] && cands[k].Some?
          ensures cands[k].value.0 != r[j].0
        {
          if j == |pidx| {
            assert init[k].value.0 in KeysOf(prev);
          } else {
            assert r[j] == prev[j];
          }
        }
      }
    }
  }

  // ---------------------------------------------------------------------
  // parseTextures
  // ---------------------------------------------------------------------

  /** The module-level `headers` after a call: replaced by the header line's
      names when there is one, untouched otherwise. */
  function HeadersAfter(data: string, previous: seq<string>): seq<string> {
    match HeaderIndex(Lines(data))
    case None => previous
    case Some(hi) => HeaderNames(Lines(data)[hi])
  }

  /** The rows kept from the data lines under the given headers. */
  function RowsFrom(headers: seq<string>, dataLines: seq<string>, mode: FilterMode, selectedGroups: seq<string>)
    : seq<Texture>
  {
    Textures(FirstOccurrences(Candidates(headers, dataLines, mode, selectedGroups)))
  }

  /** The rows `parseTextures` returns: those kept from the lines after the
      header line, under that line's names. */
  function Parsed(data: string, mode: FilterMode, selectedGroups: seq<string>): seq<Texture> {
    ParsedLines(Lines(data), mode, selectedGroups)
  }

  /** The rows kept from already trimmed, non-empty lines. */
  function ParsedLines(lines: seq<string>, mode: FilterMode, selectedGroups: seq<string>): seq<Texture> {
    match HeaderIndex(lines)
    case None => []
    case Some(hi) => RowsFrom(HeaderNames(lines[hi]), lines[hi + 1..], mode, selectedGroups)
  }

  /** `parseTextures(data, filterMode, selectedGroups)`, with the module-level
      `headers` passed in as `previous` and handed back as `headers`. */
  method ParseTextures(data: string, mode: FilterMode, selectedGroups: seq<string>, previous: seq<string>)
    returns (rows: seq<Texture>, headers: seq<string>)
    ensures headers == HeadersAfter(data, previous)
    ensures rows == Parsed(data, mode, selectedGroups)
  {
    var lines := Lines(data);
    var headerIndex := HeaderIndex(lines);
    if headerIndex.None? {
      return [], previous;
    }
    headers := HeaderNames(lines[headerIndex.value]);
    rows := KeepRows(headers, lines[headerIndex.value + 1..], mode, selectedGroups);
  }

  /** The `filter`/`map`/`filter` chain over the data lines, with the `seen`
      set of deduplication keys. */
  method KeepRows(headers: seq<string>, dataLines: seq<string>, mode: FilterMode, selectedGroups: seq<string>)
    returns (rows: seq<Texture>)
    ensures rows == RowsFrom(headers, dataLines, mode, selectedGroups)
  {
    var seen: set<string> := {};
    ghost var cands := Candidates(headers, dataLines, mode, selectedGroups);
    rows := [];
    for i := 0 to |dataLines|
      invariant seen == KeysOf(FirstOccurrences(cands[..i]))
      invariant rows == Textures(FirstOccurrences(cands[..i]))
    {
      ghost var kept := FirstOccurrences(cands[..i]);
      FirstOccurrencesStep(cands, i);
      var parts := Split(dataLines[i], ',');
      if |parts| >= |headers| - 1 {
        var texture := BuildTexture(headers, parts);
        if Screen(headers, texture, mode, selectedGroups) {
          var key := DedupKey(headers, texture);
          assert cands[i] == Some((key, texture));
          if key !in seen {
            seen := seen + {key};
            rows := rows + [texture];
            KeysOfAppend(kept, (key, texture));
            TexturesAppend(kept, (key, texture));
          }
        } else {
          assert cands[i] == None;
        }
      } else {
        assert cands[i] == None;
      }
    }
    assert cands[..|dataLines|] == cands;
  }

  // ---------------------------------------------------------------------
  // What parseTextures promises
  // ---------------------------------------------------------------------

  /** Without a line holding both `Name` and `LODGroup` there are no rows
      and `headers` is left as it was. */
  lemma NoHeaderNoRows(data: string, mode: FilterMode, selectedGroups: seq<string>, previous: seq<string>)
    requires forall i :: 0 <= i < |Lines(data)| ==> !IsHeaderLine(Lines(data)[i])
    ensures Parsed(data, mode, selectedGroups) == []
    ensures HeadersAfter(data, previous) == previous
  {
  }

  /** The empty input (what an empty selection is turned into) yields no
      rows. */
  lemma EmptyInputNoRows(mode: FilterMode, selectedGroups: seq<string>)
    ensures Parsed("", mode, selectedGroups) == []
  {
    assert Lines("") == [];
  }

  /** A line is admitted only when it has at least `headers.length - 1`
      fields and its built row passes every check; it is then keyed by the
      row's deduplication key. */
  lemma CandidateMeans(headers: seq<string>, line: string, mode: FilterMode, selectedGroups: seq<string>)
    requires Candidate(headers, line, mode, selectedGroups).Some?
    ensures var c := Candidate(headers, line, mode, selectedGroups).value;
      && |Split(line, ',')| >= |headers| - 1
      && c.1 == RowOf(headers, Split(line, ','))
      && Screen(headers, c.1, mode, selectedGroups)
      && c.0 == DedupKey(headers, c.1)
  {
  }

  /** A line with fewer than `headers.length - 1` fields yields no row. */
  lemma ShortLineDropped(headers: seq<string>, line: string, mode: FilterMode, selectedGroups: seq<string>)
    requires |Split(line, ',')| < |headers| - 1
    ensures Candidate(headers, line, mode, selectedGroups) == None
  {
  }

  lemma KeptKeys(headers: seq<string>, dataLines: seq<string>, mode: FilterMode, selectedGroups: seq<string>)
    ensures var kept := FirstOccurrences(Candidates(headers, dataLines, mode, selectedGroups));
      forall j :: 0 <= j < |kept| ==> kept[j].0 == DedupKey(headers, kept[j].1)
  {
    var cands := Candidates(headers, dataLines, mode, selectedGroups);
    var kept := FirstOccurrences(cands);
    forall j | 0 <= j < |kept| ensures kept[j].0 == DedupKey(headers, kept[j].1) {
      var k :| 0 <= k < |cands| && cands[k] == Some(kept[j]);
      CandidateMeans(headers, dataLines[k], mode, selectedGroups);
    }
  }

  /** Each row comes from a data line, in input order, and is the first
      admitted line with its key; every admitted line has its key among the
      rows. */
  lemma RowsFromOrigin(headers: seq<string>, dataLines: seq<string>, mode: FilterMode, selectedGroups: seq<string>)
    returns (idx: seq<nat>)
    ensures var rows := RowsFrom(headers, dataLines, mode, selectedGroups);
      && |idx| == |rows|
      && (forall j :: 0 <= j < |idx| ==>
            idx[j] < |dataLines| &&
            Candidate(headers, dataLines[idx[j]], mode, selectedGroups) == Some((DedupKey(headers, rows[j]), rows[j])))
      && (forall j, j' :: 0 <= j < j' < |idx| ==> idx[j] < idx[j'])
      && (forall j, k :: 0 <= j < |idx| && 0 <= k < idx[j] && Candidate(headers, dataLines[k], mode, selectedGroups).Some? ==>
            Candidate(headers, dataLines[k], mode, selectedGroups).value.0 != DedupKey(headers, rows[j]))
      && (forall k :: 0 <= k < |dataLines| && Candidate(headers, dataLines[k], mode, selectedGroups).Some? ==>
            exists j :: 0 <= j < |rows| && DedupKey(headers, rows[j]) == Candidate(headers, dataLines[k], mode, selectedGroups).value.0)
  {
    var cands := Candidates(headers, dataLines, mode, selectedGroups);
    var kept := FirstOccurrences(cands);
    var rows := Textures(kept);
    idx := FirstOccurrencesOrigins(cands);
    FirstOccurrencesComplete(cands);
    KeptKeys(headers, dataLines, mode, selectedGroups);
    forall k | 0 <= k < |dataLines| && cands[k].Some?
      ensures exists j :: 0 <= j < |rows| && DedupKey(headers, rows[j]) == cands[k].value.0
    {
      var j :| 0 <= j < |kept| && kept[j].0 == cands[k].value.0;
      assert DedupKey(headers, rows[j]) == kept[j].0;
    }
  }

  /** No two rows share a deduplication key. */
  lemma RowsFromKeysDistinct(headers: seq<string>, dataLines: seq<string>, mode: FilterMode, selectedGroups: seq<string>)
    ensures var rows := RowsFrom(headers, dataLines, mode, selectedGroups);
      forall j, j' :: 0 <= j < j' < |rows| ==> DedupKey(headers, rows[j]) != DedupKey(headers, rows[j'])
  {
    KeptKeys(headers, dataLines, mode, selectedGroups);
  }

  /** What the checks establish of a row that passes them. */
  lemma ScreenMeans(headers: seq<string>, t: Texture, mode: FilterMode, selectedGroups: seq<string>)
    requires Screen(headers, t, mode, selectedGroups)
    ensures "Group" in t.fields
    ensures |selectedGroups| == 0 || AllGroups in selectedGroups || t.fields["Group"] in selectedGroups
    ensures CookedKey(headers).Some? && Lookup(t.fields, CookedKey(headers).value) != ""
    ensures ParseSize(Lookup(t.fields, CookedKey(headers).value)).Some?
    ensures var wh := ParseSize(Lookup(t.fields, CookedKey(headers).value)).value;
      ShapeAdmits(mode, IsPowerOfTwo(wh.0), IsPowerOfTwo(wh.1))
  {
  }

  /** Every row passed the checks: its group is selected (or the selection
      is open), its cooked size is non-empty and matches the size pattern,
      and its shape is one the mode admits. */
  lemma RowsFromPassFilters(headers: seq<string>, dataLines: seq<string>, mode: FilterMode, selectedGroups: seq<string>)
    ensures forall t :: t in RowsFrom(headers, dataLines, mode, selectedGroups) ==> Screen(headers, t, mode, selectedGroups)
  {
    var cands := Candidates(headers, dataLines, mode, selectedGroups);
    var kept := FirstOccurrences(cands);
    forall t | t in RowsFrom(headers, dataLines, mode, selectedGroups)
      ensures Screen(headers, t, mode, selectedGroups)
    {
      var j :| 0 <= j < |kept| && kept[j].1 == t;
      var k :| 0 <= k < |cands| && cands[k] == Some(kept[j]);
    }
  }

  /** Every row of `parseTextures` is built from a line after the first
      header line, under that line's names, and rows keep the lines' order. */
  lemma ParsedRowsFollowHeader(lines: seq<string>, mode: FilterMode, selectedGroups: seq<string>)
    returns (hi: nat, idx: seq<nat>)
    requires HeaderIndex(lines).Some?
    ensures hi == HeaderIndex(lines).value
    ensures var rows := ParsedLines(lines, mode, selectedGroups);
      var headers := HeaderNames(lines[hi]);
      && |idx| == |rows|
      && (forall j :: 0 <= j < |idx| ==>
            hi < idx[j] < |lines| &&
            Candidate(headers, lines[idx[j]], mode, selectedGroups) == Some((DedupKey(headers, rows[j]), rows[j])))
      && (forall j, j' :: 0 <= j < j' < |idx| ==> idx[j] < idx[j'])
  {
    hi := HeaderIndex(lines).value;
    var headers := HeaderNames(lines[hi]);
    var dataLines := lines[hi + 1..];
    var local := RowsFromOrigin(headers, dataLines, mode, selectedGroups);
    idx := ShiftIndices(lines, hi + 1, local);
  }

  /** Positions in `lines[from..]` as positions in `lines`. */
  lemma ShiftIndices(lines: seq<string>, from: nat, local: seq<nat>) returns (idx: seq<nat>)
    requires from <= |lines|
    requires forall j :: 0 <= j < |local| ==> local[j] < |lines| - from
    ensures |idx| == |local|
    ensures forall j :: 0 <= j < |idx| ==>
      from <= idx[j] < |lines| && idx[j] == local[j] + from && lines[idx[j]] == lines[from..][local[j]]
  {
    idx := seq(|local|, j requires 0 <= j < |local| => local[j] + from);
  }
}
