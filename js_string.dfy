/** The JavaScript string built-ins the provider relies on, restricted to the arguments it
    passes: `String.prototype.trim`, `includes`, `substr` (non-negative arguments),
    `split` on a one-character separator, and `String(n)` for a non-negative integer. */
module JsString {
  import opened Sequences

  /** The code points `trim` removes: ECMAScript's WhiteSpace (tab, vertical tab, form feed,
      space, no-break space, byte order mark and the Unicode space separators) and
      LineTerminator (line feed, carriage return, line and paragraph separators). */
  predicate IsTrimmable(c: char)
  {
    || c == '\t' || c == '\n' || c == '\U{B}' || c == '\U{C}' || c == '\r' || c == ' '
    || c == '\U{A0}' || c == '\U{1680}' || ('\U{2000}' <= c <= '\U{200A}')
    || c == '\U{2028}' || c == '\U{2029}' || c == '\U{202F}' || c == '\U{205F}'
    || c == '\U{3000}' || c == '\U{FEFF}'
  }

  /** `s` with its leading trimmable characters removed. */
  function TrimStart(s: string): (r: string)
    ensures |r| <= |s| && r == s[|s| - |r|..]
    ensures forall i :: 0 <= i < |s| - |r| ==> IsTrimmable(s[i])
    ensures r == [] || !IsTrimmable(r[0])
  {
    if s != [] && IsTrimmable(s[0]) then TrimStart(s[1..]) else s
  }

  /** `s` with its trailing trimmable characters removed. */
  function TrimEnd(s: string): (r: string)
    ensures |r| <= |s| && r == s[..|r|]
    ensures forall i :: |r| <= i < |s| ==> IsTrimmable(s[i])
    ensures r == [] || !IsTrimmable(r[|r| - 1])
  {
    if s != [] && IsTrimmable(s[|s| - 1]) then TrimEnd(s[..|s| - 1]) else s
  }

  /** `r` is the slice `s[i..j]`, and only trimmable characters lie outside it. */
  predicate IsInnerSliceAt(r: string, s: string, i: int, j: int)
  {
    && 0 <= i <= j <= |s| && r == s[i..j]
    && (forall k :: 0 <= k < i ==> IsTrimmable(s[k]))
    && (forall k :: j <= k < |s| ==> IsTrimmable(s[k]))
  }

  /** `r` is a slice of `s` that only trimmable characters surround. */
  ghost predicate IsInnerSlice(r: string, s: string)
  {
    exists i, j :: IsInnerSliceAt(r, s, i, j)
  }

  /** `s.trim()`: the slice of `s` left after removing trimmable characters from both ends;
      it neither starts nor ends with one. */
  function Trim(s: string): (r: string)
    ensures IsInnerSlice(r, s)
    ensures r == [] || (!IsTrimmable(r[0]) && !IsTrimmable(r[|r| - 1]))
  {
    var t := TrimStart(s);
    var r := TrimEnd(t);
    TrimSlice(s, t, r);
    r
  }

  lemma TrimSlice(s: string, t: string, r: string)
    requires |t| <= |s| && t == s[|s| - |t|..] && forall k :: 0 <= k < |s| - |t| ==> IsTrimmable(s[k])
    requires |r| <= |t| && r == t[..|r|] && forall k :: |r| <= k < |t| ==> IsTrimmable(t[k])
    ensures IsInnerSliceAt(r, s, |s| - |t|, |s| - |t| + |r|)
  {
    var i := |s| - |t|;
    var j := i + |r|;
    assert r == s[i..j];
    forall k | j <= k < |s|
      ensures IsTrimmable(s[k])
    {
      assert s[k] == t[k - i];
    }
  }

  /** A string trims to the empty string exactly when every character of it is trimmable. */
  lemma TrimEmptyIff(s: string)
    ensures Trim(s) == [] <==> forall i :: 0 <= i < |s| ==> IsTrimmable(s[i])
  {
    if forall i :: 0 <= i < |s| ==> IsTrimmable(s[i]) {
      AllTrimmableTrimsStart(s);
    }
  }

  lemma {:induction false} AllTrimmableTrimsStart(s: string)
    requires forall i :: 0 <= i < |s| ==> IsTrimmable(s[i])
    ensures TrimStart(s) == []
    decreases |s|
  {
    if s != [] {
      AllTrimmableTrimsStart(s[1..]);
    }
  }

  /** Trimming twice is trimming once. */
  lemma TrimIdempotent(s: string)
    ensures Trim(Trim(s)) == Trim(s)
  {
  }

  /** `sub` occurs in `s` starting at index `i`. */
  predicate OccursAt(s: string, sub: string, i: nat)
  {
    i + |sub| <= |s| && s[i..i + |sub|] == sub
  }

  /** `s.includes(sub)`: a search for `sub` at each position of `s` from the first on; it
      succeeds exactly when `sub` occurs in `s` at some index (always, when `sub` is empty). */
  function Includes(s: string, sub: string): (b: bool)
    ensures b <==> exists i: nat :: OccursAt(s, sub, i)
    decreases |s|
  {
    if |sub| > |s| then false
    else if OccursAt(s, sub, 0) then true
    else
      IncludesStep(s, sub);
      Includes(s[1..], sub)
  }

  /** Past a position where `sub` does not occur, the search goes on in the rest of `s`. */
  lemma IncludesStep(s: string, sub: string)
    requires s != [] && !OccursAt(s, sub, 0)
    ensures (exists i: nat :: OccursAt(s[1..], sub, i)) <==> (exists i: nat :: OccursAt(s, sub, i))
  {
    if exists i: nat :: OccursAt(s, sub, i) {
      var i: nat :| OccursAt(s, sub, i);
      assert i > 0;
      OccursShift(s, sub, i - 1);
    }
    if exists i: nat :: OccursAt(s[1..], sub, i) {
      var i: nat :| OccursAt(s[1..], sub, i);
      OccursShift(s, sub, i);
    }
  }

  lemma OccursShift(s: string, sub: string, i: nat)
    requires s != []
    ensures OccursAt(s[1..], sub, i) <==> OccursAt(s, sub, i + 1)
  {
    if i + 1 + |sub| <= |s| {
      assert s[1..][i..i + |sub|] == s[i + 1..i + 1 + |sub|];
    }
  }

  /** A string includes the empty string and itself. */
  lemma IncludesEmptyAndSelf(s: string)
    ensures Includes(s, []) && Includes(s, s)
  {
    assert OccursAt(s, [], 0) && OccursAt(s, s, 0);
  }

  /** A string includes every infix of it. */
  lemma IncludesInfix(a: string, sub: string, c: string)
    ensures Includes(a + sub + c, sub)
  {
    var s := a + sub + c;
    assert s[|a|..|a| + |sub|] == sub;
    assert OccursAt(s, sub, |a|);
  }

  /** `s.substr(start, length)` for non-negative arguments: the characters of `s` from
      `start` on, at most `length` of them, and none when `start` is past the end. */
  function Substr(s: string, start: nat, length: nat): (r: string)
    ensures |r| == if start >= |s| then 0 else if length < |s| - start then length else |s| - start
    ensures forall i :: 0 <= i < |r| ==> r[i] == s[start + i]
  {
    if start >= |s| then []
    else if length < |s| - start then s[start..start + length]
    else s[start..]
  }

  /** `parts.join(sep)`. */
  function Join(parts: seq<string>, sep: char): string
  {
    if parts == [] then []
    else if |parts| == 1 then parts[0]
    else parts[0] + [sep] + Join(parts[1..], sep)
  }

  /** `s.split(sep)`: the pieces of `s` between occurrences of `sep`; there is always at least
      one piece, none contains `sep`, and joining them with `sep` gives `s` back. */
  function Split(s: string, sep: char): (parts: seq<string>)
    ensures |parts| >= 1
    ensures forall i :: 0 <= i < |parts| ==> sep !in parts[i]
    ensures Join(parts, sep) == s
  {
    if s == [] then [[]]
    else
      var rest := Split(s[1..], sep);
      assert s == [s[0]] + s[1..];
      if s[0] == sep then
        var parts := [[]] + rest;
        assert parts[1..] == rest;
        parts
      else
        var parts := [[s[0]] + rest[0]] + rest[1..];
        assert parts[1..] == rest[1..];
        JoinHead(s[0], rest[0], rest[1..], sep);
        assert rest == [rest[0]] + rest[1..];
        parts
  }

  lemma JoinHead(c: char, w: string, tail: seq<string>, sep: char)
    ensures Join([[c] + w] + tail, sep) == [c] + Join([w] + tail, sep)
  {
    var a := [[c] + w] + tail;
    var b := [w] + tail;
    assert a[1..] == tail && b[1..] == tail;
  }

  /** Splitting is the inverse of joining pieces that do not contain the separator: no other
      list of pieces joins to the same string. */
  lemma {:induction false} SplitJoin(parts: seq<string>, sep: char)
    requires |parts| >= 1
    requires forall i :: 0 <= i < |parts| ==> sep !in parts[i]
    ensures Split(Join(parts, sep), sep) == parts
    decreases |Join(parts, sep)|
  {
    var s := Join(parts, sep);
    if parts[0] == [] {
      if |parts| > 1 {
        assert s == [sep] + Join(parts[1..], sep);
        assert s[1..] == Join(parts[1..], sep);
        SplitJoin(parts[1..], sep);
        assert parts == [[]] + parts[1..];
      }
    } else {
      var c, w := parts[0][0], parts[0][1..];
      assert parts[0] == [c] + w;
      assert parts == [[c] + w] + parts[1..];
      JoinHead(c, w, parts[1..], sep);
      var next := [w] + parts[1..];
      assert s == [c] + Join(next, sep);
      assert s[1..] == Join(next, sep);
      assert c == parts[0][0] && sep !in parts[0];
      forall i | 0 <= i < |next|
        ensures sep !in next[i]
      {
        if i == 0 { assert next[0] == w; } else { assert next[i] == parts[i]; }
      }
      SplitJoin(next, sep);
      assert s[0] == c;
    }
  }

  predicate IsNonEmpty(s: string)
  {
    s != []
  }

  /** `s.split(sep).filter(name => !!name)`: the non-empty pieces of `s`, in order. */
  function SplitNonEmpty(s: string, sep: char): (r: seq<string>)
    ensures forall i :: 0 <= i < |r| ==> r[i] != [] && sep !in r[i]
    ensures IsSubsequence(r, Split(s, sep))
    ensures forall i :: 0 <= i < |Split(s, sep)| && Split(s, sep)[i] != [] ==> Split(s, sep)[i] in r
    ensures forall x :: multiset(r)[x] == if x != [] then multiset(Split(s, sep))[x] else 0
  {
    var parts := Split(s, sep);
    var r := Filter(parts, IsNonEmpty);
    FilterCount(parts, IsNonEmpty);
    assert forall i :: 0 <= i < |r| ==> sep !in r[i] by {
      forall i | 0 <= i < |r| ensures sep !in r[i] {
        assert multiset(r)[r[i]] > 0;
        assert r[i] in multiset(parts);
        var j :| 0 <= j < |parts| && parts[j] == r[i];
      }
    }
    r
  }

  function DigitChar(d: nat): (c: char)
    requires d < 10
  {
    ('0' as int + d) as char
  }

  /** `String(n)` for a non-negative integer: its decimal digits, without leading zeros. */
  function DecimalString(n: nat): (r: string)
    ensures r != [] && forall i :: 0 <= i < |r| ==> '0' <= r[i] <= '9'
    ensures r[0] == '0' ==> r == "0"
  {
    if n < 10 then [DigitChar(n)]
    else DecimalString(n / 10) + [DigitChar(n % 10)]
  }

  /** The number a string of decimal digits denotes. */
  function DecimalValue(s: string): nat
    requires forall i :: 0 <= i < |s| ==> '0' <= s[i] <= '9'
  {
    if s == [] then 0
    else DecimalValue(s[..|s| - 1]) * 10 + (s[|s| - 1] as int - '0' as int)
  }

  /** `String(n)` loses nothing: reading its digits back gives `n`. */
  lemma {:induction false} DecimalRoundTrip(n: nat)
    ensures DecimalValue(DecimalString(n)) == n
  {
    if n >= 10 {
      DecimalRoundTrip(n / 10);
      var r := DecimalString(n);
      assert r[..|r| - 1] == DecimalString(n / 10);
    }
  }
}
