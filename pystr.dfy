/**
 The Python `str` operations the PubMed extraction routine relies on:
 `find`, `in`, slicing, `strip`, `split`, `join`, `count` and `lower`,
 each with Python's own edge-case behaviour (a miss is -1, negative
 slice bounds count from the end, out-of-range bounds are clamped).
 */
module PyStr {

  /** `sub` occurs in `s` starting at index `i`. */
  predicate OccursAt(s: string, sub: string, i: int)
  {
    0 <= i && i + |sub| <= |s| && s[i..i + |sub|] == sub
  }

  /** Python's `sub in s`. */
  predicate Contains(s: string, sub: string)
  {
    exists i | 0 <= i <= |s| - |sub| :: OccursAt(s, sub, i)
  }

  /** An occurrence in a suffix is an occurrence in the whole string, shifted by the suffix's offset. */
  lemma OccursInSuffix(s: string, sub: string, k: nat)
    requires k <= |s|
    ensures forall i {:trigger OccursAt(s[k..], sub, i)} :: 0 <= i ==> (OccursAt(s[k..], sub, i) <==> OccursAt(s, sub, k + i))
    ensures forall j {:trigger OccursAt(s, sub, j)} :: k <= j ==> (OccursAt(s, sub, j) <==> OccursAt(s[k..], sub, j - k))
  {
    forall i | 0 <= i ensures OccursAt(s[k..], sub, i) <==> OccursAt(s, sub, k + i) {
      if 0 <= i && i + |sub| <= |s| - k {
        assert s[k..][i..i + |sub|] == s[k + i..k + i + |sub|];
      }
    }
  }

  /** The index of the first occurrence of `sub` in `t`, scanning left to right; -1 on a miss. */
  function IndexOf(t: string, sub: string): int
    decreases |t|
  {
    if |sub| > |t| then -1
    else if t[..|sub|] == sub then 0
    else
      var r := IndexOf(t[1..], sub);
      if r < 0 then -1 else r + 1
  }

  /** Python's `s.find(sub, start)`. A negative `start` counts from the end of `s`; a start beyond `len(s)` finds nothing. */
  function Find(s: string, sub: string, start: int): (r: int)
    ensures 0 <= start && r >= 0 ==> start <= r
  {
    var from := if start >= 0 then start else if start + |s| < 0 then 0 else start + |s|;
    if from > |s| then -1
    else
      IndexOfSpec(s[from..], sub);
      var r := IndexOf(s[from..], sub);
      if r < 0 then -1 else from + r
  }

  /** `IndexOf` finds the first occurrence, and reports -1 only when there is none. */
  lemma {:induction false} IndexOfSpec(t: string, sub: string)
    ensures var r := IndexOf(t, sub);
      (r == -1 || OccursAt(t, sub, r)) &&
      (r >= 0 ==> forall i :: 0 <= i < r ==> !OccursAt(t, sub, i)) &&
      (r == -1 ==> forall i :: 0 <= i ==> !OccursAt(t, sub, i))
    decreases |t|
  {
    if |sub| <= |t| && t[..|sub|] != sub {
      OccursInSuffix(t, sub, 1);
      IndexOfSpec(t[1..], sub);
      assert !OccursAt(t, sub, 0);
    }
  }

  /** The contract of `find` for a non-negative start: the first occurrence at or after it, or -1 when there is none. */
  lemma FindSpec(s: string, sub: string, start: nat)
    ensures var r := Find(s, sub, start);
      (r == -1 || (start <= r && OccursAt(s, sub, r))) &&
      (r >= 0 ==> forall i :: start <= i < r ==> !OccursAt(s, sub, i)) &&
      (r == -1 ==> forall i :: start <= i ==> !OccursAt(s, sub, i))
  {
    if start <= |s| {
      OccursInSuffix(s, sub, start);
      IndexOfSpec(s[start..], sub);
    }
  }

  /** `Find` returns exactly the first occurrence at or after a non-negative start. */
  lemma FindIsFirst(s: string, sub: string, start: nat, i: int)
    requires start <= i && OccursAt(s, sub, i)
    requires forall j :: start <= j < i ==> !OccursAt(s, sub, j)
    ensures Find(s, sub, start) == i
  {
    FindSpec(s, sub, start);
  }

  /** `Find` misses exactly when there is no occurrence at or after a non-negative start. */
  lemma FindMisses(s: string, sub: string, start: nat)
    requires forall j :: start <= j ==> !OccursAt(s, sub, j)
    ensures Find(s, sub, start) == -1
  {
    FindSpec(s, sub, start);
  }

  /** Python's `in` and `find(...) != -1` agree. */
  lemma ContainsIffFound(s: string, sub: string)
    ensures Contains(s, sub) <==> Find(s, sub, 0) >= 0
  {
    FindSpec(s, sub, 0);
    var r := Find(s, sub, 0);
    if r >= 0 {
      assert OccursAt(s, sub, r);
    }
  }

  /** Python's normalisation of one slice bound against a length `n`. */
  function SliceBound(i: int, n: nat): (b: nat)
    ensures b <= n
    ensures 0 <= i <= n ==> b == i
    ensures i < 0 && i + n >= 0 ==> b == i + n
    ensures i > n ==> b == n
    ensures i + n < 0 ==> b == 0
  {
    if i < 0 then (if i + n < 0 then 0 else i + n)
    else if i > n then n
    else i
  }

  /** Python's `s[a:b]`: never fails, empty when the bounds cross. */
  function Slice(s: string, a: int, b: int): (r: string)
    ensures 0 <= a <= b <= |s| ==> r == s[a..b]
    ensures a >= |s| ==> r == []
  {
    var lo := SliceBound(a, |s|);
    var hi := SliceBound(b, |s|);
    if lo < hi then s[lo..hi] else []
  }

  /** A negative end bound counts from the end of the text. */
  lemma SliceFromEnd(s: string, a: int, b: int)
    requires -|s| <= b < 0
    ensures Slice(s, a, b) == Slice(s, a, b + |s|)
  {
  }

  /** An end bound past the end of the text is the length. */
  lemma SlicePastEnd(s: string, a: int, b: int)
    requires b >= |s|
    ensures Slice(s, a, b) == Slice(s, a, |s|)
  {
  }

  /** An end bound before the start of the text gives empty text. */
  lemma SliceBeforeStart(s: string, a: int, b: int)
    requires b < -|s|
    ensures Slice(s, a, b) == []
  {
  }

  /** `s[a:-1]`, the shape a missed closing tag produces, drops the last character. */
  lemma SliceToMinusOne(s: string, a: nat)
    ensures Slice(s, a, -1) == if |s| >= 1 && a <= |s| - 1 then s[a..|s| - 1] else []
  {
  }

  /** Python's `str.isspace()` for one character: the whitespace `strip()` removes. */
  predicate IsSpace(c: char)
  {
    ('\t' <= c <= '\r') || ('\U{1C}' <= c <= ' ') ||
    c == '\U{85}' || c == '\U{A0}' || c == '\U{1680}' || ('\U{2000}' <= c <= '\U{200A}') ||
    c == '\U{2028}' || c == '\U{2029}' || c == '\U{202F}' || c == '\U{205F}' || c == '\U{3000}'
  }

  predicate AllSpace(s: string)
  {
    forall i :: 0 <= i < |s| ==> IsSpace(s[i])
  }

  /** No whitespace at either end. */
  predicate Trimmed(s: string)
  {
    s == [] || (!IsSpace(s[0]) && !IsSpace(s[|s| - 1]))
  }

  /** Python's `s.lstrip()`: drops leading whitespace. */
  function StripStart(s: string): string
  {
    if s != [] && IsSpace(s[0]) then StripStart(s[1..]) else s
  }

  /** Python's `s.rstrip()`: drops trailing whitespace. */
  function StripEnd(s: string): string
  {
    if s != [] && IsSpace(s[|s| - 1]) then StripEnd(s[..|s| - 1]) else s
  }

  /** `lstrip()` leaves a suffix that starts with a non-space, having cut only whitespace. */
  lemma {:induction false} StripStartSpec(s: string)
    ensures var r := StripStart(s);
      |r| <= |s| && r == s[|s| - |r|..] && AllSpace(s[..|s| - |r|]) && (r == [] || !IsSpace(r[0]))
  {
    if s != [] && IsSpace(s[0]) {
      StripStartSpec(s[1..]);
      var r := StripStart(s);
      assert s[1..][|s| - 1 - |r|..] == s[|s| - |r|..];
      assert s[..|s| - |r|] == [s[0]] + s[1..][..|s| - 1 - |r|];
    }
  }

  /** `rstrip()` leaves a prefix that ends with a non-space, having cut only whitespace. */
  lemma {:induction false} StripEndSpec(s: string)
    ensures var r := StripEnd(s);
      |r| <= |s| && r == s[..|r|] && AllSpace(s[|r|..]) && (r == [] || !IsSpace(r[|r| - 1]))
  {
    if s != [] && IsSpace(s[|s| - 1]) {
      StripEndSpec(s[..|s| - 1]);
      var r := StripEnd(s);
      assert s[..|s| - 1][..|r|] == s[..|r|];
      assert s[|r|..] == s[..|s| - 1][|r|..] + [s[|s| - 1]];
    }
  }

  /** Python's `s.strip()`: `s` with its leading and trailing whitespace removed. */
  function Strip(s: string): (r: string)
    ensures Trimmed(r)
  {
    StripStartSpec(s);
    StripEndSpec(StripStart(s));
    StripEnd(StripStart(s))
  }

  /** What `strip()` keeps is the middle of `s`: only whitespace is cut off, on either side. */
  lemma StripKeepsMiddle(s: string) returns (k: nat)
    ensures var r := Strip(s);
      k + |r| <= |s| && r == s[k..k + |r|] && AllSpace(s[..k]) && AllSpace(s[k + |r|..])
  {
    var t := StripStart(s);
    var r := StripEnd(t);
    StripStartSpec(s);
    StripEndSpec(t);
    k := |s| - |t|;
    assert s[k..] == t;
    assert s[k + |r|..] == t[|r|..];
  }

  lemma {:induction false} StripStartOfPadded(p: string, m: string)
    requires AllSpace(p) && (m == [] || !IsSpace(m[0]))
    ensures StripStart(p + m) == m
    decreases |p|
  {
    if p != [] {
      assert (p + m)[1..] == p[1..] + m;
      StripStartOfPadded(p[1..], m);
    }
  }

  lemma {:induction false} StripEndOfPadded(m: string, q: string)
    requires AllSpace(q) && (m == [] || !IsSpace(m[|m| - 1]))
    ensures StripEnd(m + q) == m
    decreases |q|
  {
    if q != [] {
      assert (m + q)[..|m + q| - 1] == m + q[..|q| - 1];
      StripEndOfPadded(m, q[..|q| - 1]);
    }
  }

  /** `strip()` is characterised by its result: whitespace padding around a trimmed core strips to that core. */
  lemma StripOfPadded(p: string, m: string, q: string)
    requires AllSpace(p) && AllSpace(q) && Trimmed(m)
    ensures Strip(p + m + q) == m
  {
    if m == [] {
      assert p + m + q == p + q;
      assert AllSpace(p + q);
      StripStartOfPadded(p + q, []);
      assert p + q + [] == p + q;
      StripEndOfPadded([], []);
    } else {
      assert p + m + q == p + (m + q);
      StripStartOfPadded(p, m + q);
      StripEndOfPadded(m, q);
    }
  }

  /** Stripping twice is stripping once. */
  lemma StripIdempotent(s: string)
    ensures Strip(Strip(s)) == Strip(s)
  {
    var m := Strip(s);
    assert [] + m + [] == m;
    StripOfPadded([], m, []);
  }

  /** Python's `sep.join(parts)`. */
  function Join(sep: string, parts: seq<string>): (r: string)
    ensures |parts| == 1 ==> r == parts[0]
    ensures |parts| >= 1 ==> |r| >= |parts[0]| && r[..|parts[0]|] == parts[0]
  {
    if |parts| == 0 then []
    else if |parts| == 1 then parts[0]
    else parts[0] + sep + Join(sep, parts[1..])
  }

  /** Python's `s.split(sep)` for a non-empty separator (an empty one raises). */
  function Split(s: string, sep: string): (r: seq<string>)
    requires |sep| > 0
    ensures |r| >= 1
    decreases |s|
  {
    FindSpec(s, sep, 0);
    var i := Find(s, sep, 0);
    if i < 0 then [s] else [s[..i]] + Split(s[i + |sep|..], sep)
  }

  /** Python's `s.count(sep)`: non-overlapping occurrences, scanning left to right. */
  function Count(s: string, sep: string): (n: nat)
    requires |sep| > 0
    ensures n * |sep| <= |s|
    decreases |s|
  {
    if |s| < |sep| then 0
    else if s[..|sep|] == sep then
      var m := Count(s[|sep|..], sep);
      assert (1 + m) * |sep| == |sep| + m * |sep|;
      1 + m
    else Count(s[1..], sep)
  }

  /** Joining the pieces of a split with the same separator gives back the input. */
  lemma {:induction false} JoinSplit(s: string, sep: string)
    requires |sep| > 0
    ensures Join(sep, Split(s, sep)) == s
    decreases |s|
  {
    FindSpec(s, sep, 0);
    var i := Find(s, sep, 0);
    if i >= 0 {
      var rest := s[i + |sep|..];
      var tail := Split(rest, sep);
      assert Split(s, sep) == [s[..i]] + tail;
      JoinSplit(rest, sep);
      assert Join(sep, [s[..i]] + tail) == s[..i] + sep + Join(sep, tail) by {
        assert ([s[..i]] + tail)[1..] == tail;
      }
      assert s == s[..i] + s[i..i + |sep|] + rest;
    }
  }

  /** No piece of a split contains the separator. */
  lemma {:induction false} SplitPiecesFree(s: string, sep: string, k: nat)
    requires |sep| > 0 && k < |Split(s, sep)|
    ensures !Contains(Split(s, sep)[k], sep)
    decreases |s|
  {
    FindSpec(s, sep, 0);
    var i := Find(s, sep, 0);
    if i < 0 {
      assert Split(s, sep)[k] == s;
    } else if k == 0 {
      var p := s[..i];
      forall j | 0 <= j <= |p| - |sep| ensures !OccursAt(p, sep, j) {
        assert p[j..j + |sep|] == s[j..j + |sep|];
        assert !OccursAt(s, sep, j);
      }
    } else {
      SplitPiecesFree(s[i + |sep|..], sep, k - 1);
    }
  }

  lemma {:induction false} CountWithoutOccurrence(s: string, sep: string)
    requires |sep| > 0
    requires forall j :: 0 <= j ==> !OccursAt(s, sep, j)
    ensures Count(s, sep) == 0
    decreases |s|
  {
    if |s| >= |sep| {
      assert !OccursAt(s, sep, 0);
      forall j | 0 <= j ensures !OccursAt(s[1..], sep, j) {
        if j + |sep| <= |s| - 1 {
          assert s[1..][j..j + |sep|] == s[j + 1..j + 1 + |sep|];
          assert !OccursAt(s, sep, j + 1);
        }
      }
      CountWithoutOccurrence(s[1..], sep);
    }
  }

  lemma {:induction false} CountSkipsPrefix(s: string, sep: string, i: nat)
    requires |sep| > 0 && i <= |s|
    requires forall j :: 0 <= j < i ==> !OccursAt(s, sep, j)
    ensures Count(s, sep) == Count(s[i..], sep)
    decreases i
  {
    if i > 0 {
      if |s| >= |sep| {
        assert !OccursAt(s, sep, 0);
        forall j | 0 <= j < i - 1 ensures !OccursAt(s[1..], sep, j) {
          if j + |sep| <= |s| - 1 {
            assert s[1..][j..j + |sep|] == s[j + 1..j + 1 + |sep|];
            assert !OccursAt(s, sep, j + 1);
          }
        }
        CountSkipsPrefix(s[1..], sep, i - 1);
        assert s[1..][i - 1..] == s[i..];
      } else {
        assert Count(s[i..], sep) == 0;
      }
    }
  }

  /** A split yields one more piece than there are non-overlapping occurrences of the separator. */
  lemma {:induction false} SplitCount(s: string, sep: string)
    requires |sep| > 0
    ensures |Split(s, sep)| == Count(s, sep) + 1
    decreases |s|
  {
    FindSpec(s, sep, 0);
    var i := Find(s, sep, 0);
    if i < 0 {
      CountWithoutOccurrence(s, sep);
    } else {
      CountSkipsPrefix(s, sep, i);
      var t := s[i..];
      assert t[..|sep|] == sep;
      assert t[|sep|..] == s[i + |sep|..];
      SplitCount(s[i + |sep|..], sep);
    }
  }

  /** Splitting a single-character-separated join of separator-free parts recovers the parts. */
  lemma {:induction false} SplitJoin(parts: seq<string>, sep: string)
    requires |sep| == 1 && |parts| >= 1
    requires forall k :: 0 <= k < |parts| ==> !Contains(parts[k], sep)
    ensures Split(Join(sep, parts), sep) == parts
    decreases |parts|
  {
    var p := parts[0];
    if |parts| == 1 {
      ContainsIffFound(p, sep);
    } else {
      var rest := Join(sep, parts[1..]);
      var s := p + sep + rest;
      assert OccursAt(s, sep, |p|) by {
        assert s[|p|..|p| + 1] == sep;
      }
      forall j | 0 <= j < |p| ensures !OccursAt(s, sep, j) {
        if OccursAt(s, sep, j) {
          assert s[j..j + 1] == p[j..j + 1];
          assert OccursAt(p, sep, j);
          assert false;
        }
      }
      FindIsFirst(s, sep, 0, |p|);
      assert s[..|p|] == p;
      assert s[|p| + 1..] == rest;
      SplitJoin(parts[1..], sep);
    }
  }

  /** ASCII case folding: 'A'..'Z' become 'a'..'z', every other character is kept. */
  function LowerChar(c: char): (d: char)
  {
    if 'A' <= c <= 'Z' then (c as int + 32) as char else c
  }

  /** Python's `s.lower()`, restricted to ASCII case folding. */
  function Lower(s: string): (r: string)
    ensures |r| == |s|
    ensures forall i :: 0 <= i < |s| ==> r[i] == LowerChar(s[i])
  {
    seq(|s|, i requires 0 <= i < |s| => LowerChar(s[i]))
  }

  /** Lower-casing neither creates nor removes whitespace. */
  lemma LowerCharKeepsSpace(c: char)
    ensures IsSpace(LowerChar(c)) <==> IsSpace(c)
  {
  }

  /** Lower-casing twice is lower-casing once. */
  lemma {:induction false} LowerIdempotent(s: string)
    ensures Lower(Lower(s)) == Lower(s)
  {
  }
}
