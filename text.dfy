/**
 * String helpers standing in for the JavaScript string built-ins the
 * extension uses: `indexOf`/`includes`, `replace` with a string pattern
 * (first occurrence only), global replacement, `trim`, ASCII `toLowerCase`,
 * whitespace removal and `padStart(2, '0')`.
 */
module Text {

  /** The characters JavaScript's `\s` and `String.prototype.trim` treat as white space. */
  predicate IsSpace(c: char)
  {
    c == ' ' || c == '\t' || c == '\n' || c == '\r' || c == '\U{B}' || c == '\U{C}'
    || c == '\U{A0}' || c == '\U{1680}' || ('\U{2000}' <= c <= '\U{200A}')
    || c == '\U{2028}' || c == '\U{2029}' || c == '\U{202F}' || c == '\U{205F}'
    || c == '\U{3000}' || c == '\U{FEFF}'
  }

  /** `p` occurs in `s` starting at index `i`. */
  predicate OccursAt(s: string, p: string, i: nat)
  {
    i + |p| <= |s| && s[i..i + |p|] == p
  }

  /** Character-by-character prefix test (the computable form of `OccursAt(s, p, 0)`). */
  predicate StartsWith(s: string, p: string)
  {
    |p| == 0 || (|s| > 0 && s[0] == p[0] && StartsWith(s[1..], p[1..]))
  }

  lemma {:induction false} StartsWithIsOccursAt(s: string, p: string)
    ensures StartsWith(s, p) <==> OccursAt(s, p, 0)
  {
    if |p| > 0 && |s| > 0 {
      StartsWithIsOccursAt(s[1..], p[1..]);
      if OccursAt(s, p, 0) {
        assert s[1..][0..|p[1..]|] == s[0..|p|][1..];
      }
      if OccursAt(s[1..], p[1..], 0) && s[0] == p[0] {
        assert s[0..|p|] == [s[0]] + s[1..][0..|p[1..]|];
      }
    }
  }

  lemma OccursAtTail(s: string, p: string, j: nat)
    requires |s| > 0
    ensures OccursAt(s[1..], p, j) <==> OccursAt(s, p, j + 1)
  {
    if j + 1 + |p| <= |s| {
      assert s[1..][j..j + |p|] == s[j + 1..j + 1 + |p|];
    }
  }

  /** `s.indexOf(p)`: the first index where `p` occurs, or -1 (see `FindSpec`). */
  function Find(s: string, p: string): (r: int)
    ensures -1 <= r && (r >= 0 ==> r + |p| <= |s|)
  {
    if StartsWith(s, p) then (StartsWithIsOccursAt(s, p); 0)
    else if |s| == 0 then -1
    else
      var k := Find(s[1..], p);
      if k < 0 then -1 else k + 1
  }

  /** `Find` gives the first occurrence, and -1 exactly when there is none. */
  lemma {:induction false} FindSpec(s: string, p: string)
    ensures var r := Find(s, p);
      (r >= 0 ==> OccursAt(s, p, r) && forall j: nat :: j < r ==> !OccursAt(s, p, j))
      && (r < 0 ==> forall j: nat :: !OccursAt(s, p, j))
  {
    StartsWithIsOccursAt(s, p);
    if !StartsWith(s, p) && |s| > 0 {
      FindSpec(s[1..], p);
      forall j: nat | j >= 1 ensures OccursAt(s, p, j) <==> OccursAt(s[1..], p, j - 1) {
        OccursAtTail(s, p, j - 1);
      }
    }
  }

  /** `s.includes(p)`. */
  predicate Contains(s: string, p: string) { Find(s, p) >= 0 }

  /** `s.replace(p, v)` with a string pattern: only the first occurrence is replaced. */
  function ReplaceFirst(s: string, p: string, v: string): string
  {
    var i := Find(s, p);
    if i < 0 then s else s[..i] + v + s[i + |p|..]
  }

  /** The replacement happens at the first occurrence: whatever precedes it is kept. */
  lemma ReplaceFirstAt(s: string, p: string, v: string, a: string, b: string)
    requires s == a + p + b
    requires forall j: nat :: j < |a| ==> !OccursAt(s, p, j)
    ensures ReplaceFirst(s, p, v) == a + v + b
  {
    assert OccursAt(s, p, |a|) by { assert s[|a|..|a| + |p|] == p; }
    FindSpec(s, p);
    var i := Find(s, p);
    assert i == |a|;
    assert s[..i] == a && s[i + |p|..] == b;
  }

  lemma ReplaceFirstAbsent(s: string, p: string, v: string)
    requires forall j: nat :: !OccursAt(s, p, j)
    ensures !Contains(s, p) && ReplaceFirst(s, p, v) == s
  {
    FindSpec(s, p);
  }

  /** Replacing where nothing before the pattern can start it: the first occurrence is the one written. */
  lemma ReplaceAfter(a: string, p: string, b: string, v: string)
    requires |p| > 0 && forall j :: 0 <= j < |a| ==> a[j] != p[0]
    ensures ReplaceFirst(a + p + b, p, v) == a + v + b
  {
    var s := a + p + b;
    forall j: nat | j < |a| ensures !OccursAt(s, p, j) {
      assert s[j] == a[j];
    }
    ReplaceFirstAt(s, p, v, a, b);
  }

  /** A pattern whose first character does not occur is not replaced. */
  lemma ReplaceMissing(s: string, p: string, v: string)
    requires |p| > 0 && forall j :: 0 <= j < |s| ==> s[j] != p[0]
    ensures !Contains(s, p) && ReplaceFirst(s, p, v) == s
  {
    forall j: nat | j < |s| ensures !OccursAt(s, p, j) {
      assert s[j] != p[0];
    }
    FindSpec(s, p);
  }

  /** An occurrence anywhere makes `includes` true. */
  lemma ContainsAt(s: string, p: string, i: nat)
    requires OccursAt(s, p, i)
    ensures Contains(s, p)
  {
    FindSpec(s, p);
  }

  /** Global replacement of a non-empty literal pattern, scanning left to right; inserted text is not rescanned. */
  function ReplaceAll(s: string, p: string, v: string): string
    requires |p| > 0
    decreases |s|
  {
    var i := Find(s, p);
    if i < 0 then s else s[..i] + v + ReplaceAll(s[i + |p|..], p, v)
  }

  /** The first occurrence is replaced and the scan resumes after it. */
  lemma ReplaceAllAt(s: string, p: string, v: string, a: string, b: string)
    requires |p| > 0 && s == a + p + b
    requires forall j: nat :: j < |a| ==> !OccursAt(s, p, j)
    ensures ReplaceAll(s, p, v) == a + v + ReplaceAll(b, p, v)
  {
    assert OccursAt(s, p, |a|) by { assert s[|a|..|a| + |p|] == p; }
    FindSpec(s, p);
    var i := Find(s, p);
    assert i == |a|;
    assert s[..i] == a && s[i + |p|..] == b;
  }

  /** Global replacement where nothing before the pattern can start it. */
  lemma ReplaceAllAfter(a: string, p: string, b: string, v: string)
    requires |p| > 0 && forall j :: 0 <= j < |a| ==> a[j] != p[0]
    ensures ReplaceAll(a + p + b, p, v) == a + v + ReplaceAll(b, p, v)
  {
    var s := a + p + b;
    forall j: nat | j < |a| ensures !OccursAt(s, p, j) {
      assert s[j] == a[j];
    }
    ReplaceAllAt(s, p, v, a, b);
  }

  /** A pattern whose first character does not occur is not replaced anywhere. */
  lemma ReplaceAllMissing(s: string, p: string, v: string)
    requires |p| > 0 && forall j :: 0 <= j < |s| ==> s[j] != p[0]
    ensures ReplaceAll(s, p, v) == s
  {
    ReplaceMissing(s, p, v);
    ReplaceAllAbsent(s, p, v);
  }

  /** `parts` with `sep` between each two neighbours. */
  function Join(parts: seq<string>, sep: string): string
  {
    if parts == [] then []
    else if |parts| == 1 then parts[0]
    else parts[0] + sep + Join(parts[1..], sep)
  }

  /**
   * Every occurrence is replaced: in a text made of pieces that cannot start
   * the pattern, joined by the pattern, the global replace swaps each joint
   * for the replacement, however many there are.
   */
  lemma {:induction false} ReplaceAllJoin(parts: seq<string>, p: string, v: string)
    requires |p| > 0
    requires forall k, j :: 0 <= k < |parts| && 0 <= j < |parts[k]| ==> parts[k][j] != p[0]
    ensures ReplaceAll(Join(parts, p), p, v) == Join(parts, v)
  {
    if parts == [] {
      ReplaceAllMissing([], p, v);
    } else if |parts| == 1 {
      ReplaceAllMissing(parts[0], p, v);
    } else {
      ReplaceAllAfter(parts[0], p, Join(parts[1..], p), v);
      ReplaceAllJoin(parts[1..], p, v);
    }
  }

  /** `s` starts with each of its own prefixes. */
  lemma StartsWithConcat(p: string, x: string)
    ensures StartsWith(p + x, p)
  {
    StartsWithIsOccursAt(p + x, p);
    assert (p + x)[0..|p|] == p;
  }

  /** Replacing a pattern that does not occur changes nothing. */
  lemma ReplaceAllAbsent(s: string, p: string, v: string)
    requires |p| > 0
    requires !Contains(s, p)
    ensures ReplaceAll(s, p, v) == s
  {
    FindSpec(s, p);
  }

  /** Replacing every occurrence of a pattern by itself gives the text back. */
  lemma {:induction false} ReplaceAllSelf(s: string, p: string)
    requires |p| > 0
    ensures ReplaceAll(s, p, p) == s
    decreases |s|
  {
    FindSpec(s, p);
    var i := Find(s, p);
    if i >= 0 {
      ReplaceAllSelf(s[i + |p|..], p);
      assert s[i..i + |p|] == p;
      assert s == s[..i] + s[i..i + |p|] + s[i + |p|..];
    }
  }

  /** Every occurrence of the pattern is gone when the replacement cannot reintroduce it. */
  lemma {:induction false} ReplaceAllRemovesPattern(s: string, p: string, v: string)
    requires |p| == 1 && !Contains(v, p)
    ensures !Contains(ReplaceAll(s, p, v), p)
    decreases |s|
  {
    FindSpec(s, p);
    FindSpec(v, p);
    var i := Find(s, p);
    if i < 0 {
      assert ReplaceAll(s, p, v) == s;
    } else {
      var rest := s[i + |p|..];
      ReplaceAllRemovesPattern(rest, p, v);
      FindSpec(ReplaceAll(rest, p, v), p);
      var r := s[..i] + v + ReplaceAll(rest, p, v);
      forall j: nat ensures !OccursAt(r, p, j) {
        if j < i {
          assert r[j] == s[j];
          assert !OccursAt(s, p, j);
        } else if j < i + |v| {
          assert r[j] == v[j - i];
          assert !OccursAt(v, p, j - i);
        } else if j < |r| {
          assert r[j] == ReplaceAll(rest, p, v)[j - i - |v|];
          assert !OccursAt(ReplaceAll(rest, p, v), p, j - i - |v|);
        }
      }
      FindSpec(r, p);
    }
  }

  function TrimStart(s: string): (r: string)
    ensures |r| <= |s|
  {
    if |s| > 0 && IsSpace(s[0]) then TrimStart(s[1..]) else s
  }

  /** `TrimStart` drops exactly the leading white space. */
  lemma {:induction false} TrimStartSpec(s: string)
    ensures var r := TrimStart(s);
      r == s[|s| - |r|..]
      && (forall m :: 0 <= m < |s| - |r| ==> IsSpace(s[m]))
      && (r == [] || !IsSpace(r[0]))
  {
    if |s| > 0 && IsSpace(s[0]) {
      TrimStartSpec(s[1..]);
      var r := TrimStart(s);
      forall m | 0 < m < |s| - |r| ensures IsSpace(s[m]) {
        assert s[m] == s[1..][m - 1];
      }
    }
  }

  function TrimEnd(s: string): (r: string)
    ensures |r| <= |s|
  {
    if |s| > 0 && IsSpace(s[|s| - 1]) then TrimEnd(s[..|s| - 1]) else s
  }

  /** `TrimEnd` drops exactly the trailing white space. */
  lemma {:induction false} TrimEndSpec(s: string)
    ensures var r := TrimEnd(s);
      r == s[..|r|]
      && (forall m :: |r| <= m < |s| ==> IsSpace(s[m]))
      && (r == [] || !IsSpace(r[|r| - 1]))
  {
    if |s| > 0 && IsSpace(s[|s| - 1]) {
      TrimEndSpec(s[..|s| - 1]);
      var r := TrimEnd(s);
      forall m | |r| <= m < |s| - 1 ensures IsSpace(s[m]) {
        assert s[m] == s[..|s| - 1][m];
      }
    }
  }

  /** `s.trim()`. */
  function Trim(s: string): string { TrimEnd(TrimStart(s)) }

  /** A string trims to the empty string exactly when it is all white space. */
  lemma TrimEmptyIff(s: string)
    ensures Trim(s) == [] <==> forall i :: 0 <= i < |s| ==> IsSpace(s[i])
  {
    var a := TrimStart(s);
    TrimStartSpec(s);
    TrimEndSpec(a);
    if Trim(s) == [] {
      assert a == [];
    } else {
      var r := Trim(s);
      assert r[0] == a[0] == s[|s| - |a|];
    }
  }

  /** A trimmed string neither starts nor ends with white space. */
  lemma TrimIsTrimmed(s: string)
    ensures Trim(s) == [] || (!IsSpace(Trim(s)[0]) && !IsSpace(Trim(s)[|Trim(s)| - 1]))
  {
    var a := TrimStart(s);
    var r := TrimEnd(a);
    TrimStartSpec(s);
    TrimEndSpec(a);
    if r != [] {
      assert r[0] == a[0];
    }
  }

  /** Trimming twice is trimming once. */
  lemma TrimIdempotent(s: string)
    ensures Trim(Trim(s)) == Trim(s)
  {
    var t := Trim(s);
    TrimIsTrimmed(s);
    if t != [] {
      assert TrimStart(t) == t;
      assert TrimEnd(t) == t;
    }
  }

  /** ASCII `toLowerCase` of one character. */
  function LowerChar(c: char): char
  {
    if 'A' <= c <= 'Z' then (c as int + 32) as char else c
  }

  function Lower(s: string): (r: string)
    ensures |r| == |s| && forall i :: 0 <= i < |s| ==> r[i] == LowerChar(s[i])
  {
    seq(|s|, i requires 0 <= i < |s| => LowerChar(s[i]))
  }

  /** `s.replace(/\s+/g, '')`: every white-space character removed, the rest kept in order. */
  function RemoveSpaces(s: string): (r: string)
    ensures |r| <= |s|
    ensures forall i :: 0 <= i < |r| ==> !IsSpace(r[i])
    // text without white space is kept whole, and white space alone vanishes
    ensures (forall i :: 0 <= i < |s| ==> !IsSpace(s[i])) ==> r == s
    ensures (forall i :: 0 <= i < |s| ==> IsSpace(s[i])) ==> r == []
  {
    if |s| == 0 then []
    else if IsSpace(s[0]) then RemoveSpaces(s[1..])
    else [s[0]] + RemoveSpaces(s[1..])
  }

  /** Removing white space works piece by piece, so the other characters keep their order. */
  lemma {:induction false} RemoveSpacesAppend(a: string, b: string)
    ensures RemoveSpaces(a + b) == RemoveSpaces(a) + RemoveSpaces(b)
  {
    if |a| == 0 {
      assert a + b == b;
    } else {
      assert (a + b)[1..] == a[1..] + b;
      RemoveSpacesAppend(a[1..], b);
    }
  }

  /**
   * `name.toLowerCase().replace(/\s+/g, '')`, the form city ids are
   * generated in and the known-city test compares.
   */
  function Normalised(name: string): (r: string)
    ensures forall k :: 0 <= k < |r| ==> !IsSpace(r[k]) && !('A' <= r[k] <= 'Z')
  {
    RemoveSpacesOfLower(Lower(name));
    RemoveSpaces(Lower(name))
  }

  /** A name without white space normalises to its lower-cased self. */
  lemma NormalisedWithoutSpaces(name: string)
    requires forall k :: 0 <= k < |name| ==> !IsSpace(name[k])
    ensures Normalised(name) == Lower(name)
  {
    forall k | 0 <= k < |name| ensures !IsSpace(Lower(name)[k]) {
      assert Lower(name)[k] == LowerChar(name[k]);
    }
  }

  lemma {:induction false} RemoveSpacesOfLower(s: string)
    requires forall k :: 0 <= k < |s| ==> !('A' <= s[k] <= 'Z')
    ensures forall k :: 0 <= k < |RemoveSpaces(s)| ==> !('A' <= RemoveSpaces(s)[k] <= 'Z')
  {
    if |s| > 0 {
      RemoveSpacesOfLower(s[1..]);
    }
  }

  /** Normalising a concatenation normalises each piece. */
  lemma NormalisedAppend(a: string, b: string)
    ensures Normalised(a + b) == Normalised(a) + Normalised(b)
  {
    var la, lb := Lower(a), Lower(b);
    assert Lower(a + b) == la + lb by {
      forall k | 0 <= k < |a + b| ensures Lower(a + b)[k] == (la + lb)[k] {
        if k < |a| { assert (a + b)[k] == a[k]; } else { assert (a + b)[k] == b[k - |a|]; }
      }
    }
    RemoveSpacesAppend(la, lb);
  }

  /** Decimal rendering of a natural number, as `String(n)` prints it. */
  function NatToString(n: nat): (r: string)
    ensures |r| >= 1
    ensures forall i :: 0 <= i < |r| ==> '0' <= r[i] <= '9'
    ensures |r| == 1 <==> n < 10
    ensures n < 100 ==> |r| <= 2
  {
    if n < 10 then [Digit(n)] else NatToString(n / 10) + [Digit(n % 10)]
  }

  function Digit(d: nat): (r: char)
    requires d < 10
    ensures '0' <= r <= '9'
  {
    ('0' as int + d) as char
  }

  /** `s.padStart(2, '0')`. */
  function PadStart2(s: string): (r: string)
    ensures |r| == if |s| >= 2 then |s| else 2
    ensures r[|r| - |s|..] == s
  {
    if |s| >= 2 then s else if |s| == 1 then "0" + s else "00"
  }

  /** `String(n).padStart(2, '0')` is the tens digit followed by the units digit. */
  lemma Pad2Shape(n: nat)
    requires n < 100
    ensures PadStart2(NatToString(n)) == [Digit(n / 10), Digit(n % 10)]
  {
    if n < 10 {
      assert NatToString(n) == [Digit(n)];
      assert Digit(0) == '0';
    } else {
      assert NatToString(n / 10) == [Digit(n / 10)];
    }
  }

  /** The two-digit rendering of a number below 100. */
  function Pad2(n: nat): (r: string)
    requires n < 100
    ensures |r| == 2 && r == [Digit(n / 10), Digit(n % 10)]
  {
    Pad2Shape(n);
    PadStart2(NatToString(n))
  }
}
