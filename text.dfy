/** String and byte-sequence operations with the semantics of the JavaScript built-ins the
    services use (`trim`, `split`, `indexOf`, `startsWith`, `padEnd`, ASCII `toLowerCase`,
    binary strings), together with the facts about them that the rest of the model relies on. */
module Text {

  import opened Wrappers

  /** A byte, as held in a `Uint8Array`. */
  type byte = b: int | 0 <= b < 256

  /** The code points JavaScript's `trim` removes and `\s` matches: the WhiteSpace and
      LineTerminator characters (TAB, LF, VT, FF, CR, the Zs space separators, LS, PS, BOM). */
  predicate IsSpace(c: char) {
    var n := c as int;
    (9 <= n <= 13) || n == 32 || n == 0xA0 || n == 0x1680 || (0x2000 <= n <= 0x200A)
    || n == 0x2028 || n == 0x2029 || n == 0x202F || n == 0x205F || n == 0x3000 || n == 0xFEFF
  }

  predicate NoSpace(s: string) {
    forall i :: 0 <= i < |s| ==> !IsSpace(s[i])
  }

  // ---------------------------------------------------------------------------------------
  // trim

  /** Number of whitespace characters at the front of `s`. */
  function LeadingSpace(s: string): (n: nat)
    ensures n <= |s|
    ensures forall i :: 0 <= i < n ==> IsSpace(s[i])
    ensures n < |s| ==> !IsSpace(s[n])
  {
    if s != [] && IsSpace(s[0]) then 1 + LeadingSpace(s[1..]) else 0
  }

  /** Number of whitespace characters at the end of `s`. */
  function TrailingSpace(s: string): (n: nat)
    ensures n <= |s|
    ensures forall i :: |s| - n <= i < |s| ==> IsSpace(s[i])
    ensures n < |s| ==> !IsSpace(s[|s| - 1 - n])
  {
    if s != [] && IsSpace(s[|s| - 1]) then 1 + TrailingSpace(s[..|s| - 1]) else 0
  }

  /** `String.prototype.trim`: the longest infix of `s` that neither starts nor ends with
      whitespace, found by dropping every leading and trailing whitespace character. */
  function Trim(s: string): (r: string)
    ensures LeadingSpace(s) + |r| <= |s|
    ensures r == s[LeadingSpace(s)..LeadingSpace(s) + |r|]
    ensures r != [] ==> !IsSpace(r[0]) && !IsSpace(r[|r| - 1])
    ensures r == [] <==> forall i :: 0 <= i < |s| ==> IsSpace(s[i])
  {
    var t := s[LeadingSpace(s)..];
    var r := t[..|t| - TrailingSpace(t)];
    r
  }

  /** Trimming a string without whitespace at either end changes nothing. */
  lemma TrimNoEdgeSpace(s: string)
    requires s != [] ==> !IsSpace(s[0]) && !IsSpace(s[|s| - 1])
    ensures Trim(s) == s
  {
    if s != [] {
      assert LeadingSpace(s) == 0;
      assert TrailingSpace(s) == 0;
    }
  }

  lemma TrimIdempotent(s: string)
    ensures Trim(Trim(s)) == Trim(s)
  {
    TrimNoEdgeSpace(Trim(s));
  }

  // ---------------------------------------------------------------------------------------
  // ASCII case mapping

  function LowerChar(c: char): char {
    if 'A' <= c <= 'Z' then (c as int + 32) as char else c
  }

  /** `toLowerCase`, restricted to the ASCII letters. */
  function Lower(s: string): (r: string)
    ensures |r| == |s|
    ensures forall i :: 0 <= i < |s| ==> r[i] == LowerChar(s[i])
  {
    seq(|s|, i requires 0 <= i < |s| => LowerChar(s[i]))
  }

  lemma LowerIdempotent(s: string)
    ensures Lower(Lower(s)) == Lower(s)
  {
  }

  // ---------------------------------------------------------------------------------------
  // split / join

  /** `split` on every element that satisfies `isSep`: the returned pieces are separated
      by exactly one separator each, so there is always one more piece than separators. */
  function Split<T>(s: seq<T>, isSep: T -> bool): (parts: seq<seq<T>>)
    ensures |parts| >= 1
    ensures forall k, i :: 0 <= k < |parts| && 0 <= i < |parts[k]| ==> !isSep(parts[k][i])
  {
    if s == [] then [[]]
    else
      var rest := Split(s[1..], isSep);
      if isSep(s[0]) then [[]] + rest else [[s[0]] + rest[0]] + rest[1..]
  }

  /** The single space `split(" ")` separates on. */
  predicate IsBlankChar(c: char) { c == ' ' }

  /** Concatenation of `parts` with `sep` between consecutive pieces (`Array.prototype.join`). */
  function Join<T>(parts: seq<seq<T>>, sep: seq<T>): seq<T> {
    if |parts| == 0 then []
    else if |parts| == 1 then parts[0]
    else parts[0] + sep + Join(parts[1..], sep)
  }

  /** A sequence without separators splits into itself alone. */
  lemma {:induction false} SplitNoSep<T>(s: seq<T>, isSep: T -> bool)
    requires forall i :: 0 <= i < |s| ==> !isSep(s[i])
    ensures Split(s, isSep) == [s]
  {
    if s != [] {
      SplitNoSep(s[1..], isSep);
      assert [s[0]] + s[1..] == s;
    }
  }

  /** The pieces after appending `x` to what was split into `p`: a separator opens a new,
      empty piece, anything else extends the last piece. */
  function Extend<T>(p: seq<seq<T>>, x: T, isSep: T -> bool): seq<seq<T>>
    requires |p| >= 1
  {
    if isSep(x) then p + [[]] else p[..|p| - 1] + [p[|p| - 1] + [x]]
  }

  /** The pieces after putting `c` in front of what was split into `rest`. */
  function Prepend<T>(c: T, rest: seq<seq<T>>, isSep: T -> bool): seq<seq<T>>
    requires |rest| >= 1
  {
    if isSep(c) then [[]] + rest else [[c] + rest[0]] + rest[1..]
  }

  /** Putting an element in front and appending one at the back commute. */
  lemma PrependExtend<T>(c: T, rest: seq<seq<T>>, x: T, isSep: T -> bool)
    requires |rest| >= 1
    ensures Prepend(c, Extend(rest, x, isSep), isSep) == Extend(Prepend(c, rest, isSep), x, isSep)
  {
    var n := |rest|;
    if !isSep(c) && !isSep(x) {
      if n == 1 {
        assert [c] + (rest[0] + [x]) == ([c] + rest[0]) + [x];
      } else {
        var e := Extend(rest, x, isSep);
        assert e[0] == rest[0] && e[1..] == rest[1..n - 1] + [rest[n - 1] + [x]];
      }
    }
  }

  /** Appending one element either opens a new, empty piece (a separator) or extends the
      last piece. */
  lemma {:induction false} SplitSnoc<T>(s: seq<T>, x: T, isSep: T -> bool)
    ensures var p := Split(s, isSep);
      Split(s + [x], isSep) == if isSep(x) then p + [[]] else p[..|p| - 1] + [p[|p| - 1] + [x]]
  {
    if s == [] {
      assert s + [x] == [x] && [x][1..] == s;
      var none: seq<T> := [];
      assert Split(s, isSep) == [none];
      assert Split([x], isSep) == Prepend(x, [none], isSep);
      assert [x] + none == none + [x] == [x];
    } else {
      var t := s + [x];
      assert t[0] == s[0] && t[1..] == s[1..] + [x];
      SplitSnoc(s[1..], x, isSep);
      var rest := Split(s[1..], isSep);
      assert Split(s, isSep) == Prepend(s[0], rest, isSep);
      assert Split(t, isSep) == Prepend(s[0], Extend(rest, x, isSep), isSep);
      PrependExtend(s[0], rest, x, isSep);
    }
  }

  /** Splitting `a + [x] + b`, where `a` holds no separator and `x` is one, yields `a`
      followed by the pieces of `b`. */
  lemma {:induction false} SplitAfterSep<T>(a: seq<T>, x: T, b: seq<T>, isSep: T -> bool)
    requires forall i :: 0 <= i < |a| ==> !isSep(a[i])
    requires isSep(x)
    ensures Split(a + [x] + b, isSep) == [a] + Split(b, isSep)
  {
    if a == [] {
      assert (a + [x] + b)[1..] == b;
    } else {
      assert (a + [x] + b)[1..] == a[1..] + [x] + b;
      SplitAfterSep(a[1..], x, b, isSep);
      assert [a[0]] + a[1..] == a;
    }
  }

  /** Splitting a join on a one-element separator recovers the pieces (when no piece holds
      the separator). */
  lemma {:induction false} SplitJoin<T>(parts: seq<seq<T>>, x: T, isSep: T -> bool)
    requires |parts| >= 1
    requires forall k, i :: 0 <= k < |parts| && 0 <= i < |parts[k]| ==> !isSep(parts[k][i])
    requires isSep(x)
    ensures Split(Join(parts, [x]), isSep) == parts
  {
    if |parts| == 1 {
      SplitNoSep(parts[0], isSep);
    } else {
      SplitJoin(parts[1..], x, isSep);
      SplitAfterSep(parts[0], x, Join(parts[1..], [x]), isSep);
      assert [parts[0]] + parts[1..] == parts;
    }
  }

  /** Trimming keeps only characters of the original. */
  lemma TrimSlice(s: string, isSep: char -> bool)
    requires forall i :: 0 <= i < |s| ==> !isSep(s[i])
    ensures forall i :: 0 <= i < |Trim(s)| ==> !isSep(Trim(s)[i])
  {
    var t := Trim(s);
    var l := LeadingSpace(s);
    forall i | 0 <= i < |t| ensures !isSep(t[i]) {
      assert t[i] == s[l + i];
    }
  }

  /** `map((x) => x.trim())`. */
  function TrimEach(parts: seq<string>): (r: seq<string>)
    ensures |r| == |parts| && forall k :: 0 <= k < |parts| ==> r[k] == Trim(parts[k])
  {
    seq(|parts|, k requires 0 <= k < |parts| => Trim(parts[k]))
  }

  /** `filter(Boolean)` on strings: drops the empty ones and keeps the order of the rest. */
  function DropEmpty(parts: seq<string>): (r: seq<string>)
    ensures |r| <= |parts|
    ensures forall k :: 0 <= k < |r| ==> r[k] != []
    ensures forall x :: x in r <==> x in parts && x != []
  {
    if parts == [] then []
    else if parts[0] == [] then DropEmpty(parts[1..])
    else [parts[0]] + DropEmpty(parts[1..])
  }

  /** `split(c).map(trim).filter(Boolean)`: the trimmed, non-empty fields of `s` separated
      by characters satisfying `isSep`. */
  function Fields(s: string, isSep: char -> bool): (r: seq<string>)
    ensures forall k :: 0 <= k < |r| ==> r[k] != [] && r[k] == Trim(r[k])
    ensures forall k, i :: 0 <= k < |r| && 0 <= i < |r[k]| ==> !isSep(r[k][i])
  {
    var parts := Split(s, isSep);
    var trimmed := TrimEach(parts);
    var r := DropEmpty(trimmed);
    forall k | 0 <= k < |r|
      ensures r[k] == Trim(r[k]) && forall i :: 0 <= i < |r[k]| ==> !isSep(r[k][i])
    {
      assert r[k] in trimmed;
      var j :| 0 <= j < |trimmed| && trimmed[j] == r[k];
      TrimSlice(parts[j], isSep);
      TrimIdempotent(parts[j]);
    }
    r
  }

  // ---------------------------------------------------------------------------------------
  // searching

  function StartsWith<T(==)>(s: seq<T>, prefix: seq<T>): bool {
    |prefix| <= |s| && s[..|prefix|] == prefix
  }

  predicate OccursAt<T(==)>(s: seq<T>, p: seq<T>, i: int) {
    0 <= i && i + |p| <= |s| && s[i..i + |p|] == p
  }

  function IndexFrom<T(==)>(s: seq<T>, p: seq<T>, from: nat): (r: int)
    requires from <= |s| + 1
    ensures r == -1 || (from <= r && OccursAt(s, p, r))
    ensures forall i :: from <= i && (r == -1 || i < r) ==> !OccursAt(s, p, i)
    decreases |s| + 1 - from
  {
    if from + |p| > |s| then -1
    else if s[from..from + |p|] == p then from
    else IndexFrom(s, p, from + 1)
  }

  /** `indexOf`: the first position where `p` occurs in `s`, or -1 when it does not occur. */
  function IndexOf<T(==)>(s: seq<T>, p: seq<T>): (r: int)
    ensures r == -1 || OccursAt(s, p, r)
    ensures forall i :: 0 <= i && (r == -1 || i < r) ==> !OccursAt(s, p, i)
  {
    IndexFrom(s, p, 0)
  }

  /** `includes`. */
  predicate Contains<T(==)>(s: seq<T>, p: seq<T>) {
    IndexOf(s, p) != -1
  }

  lemma ContainsAt<T>(s: seq<T>, p: seq<T>, i: int)
    requires OccursAt(s, p, i)
    ensures Contains(s, p)
  {
  }

  // ---------------------------------------------------------------------------------------
  // character replacement, padding, trailing runs

  /** `replace(/a/g, b)` for a single character `a`. */
  function ReplaceChar(s: string, a: char, b: char): (r: string)
    ensures |r| == |s|
    ensures forall i :: 0 <= i < |s| ==> r[i] == if s[i] == a then b else s[i]
  {
    seq(|s|, i requires 0 <= i < |s| => if s[i] == a then b else s[i])
  }

  /** Number of copies of `c` at the end of `s`. */
  function TrailingCount(s: string, c: char): (n: nat)
    ensures n <= |s|
    ensures forall i :: |s| - n <= i < |s| ==> s[i] == c
    ensures n < |s| ==> s[|s| - 1 - n] != c
  {
    if s != [] && s[|s| - 1] == c then 1 + TrailingCount(s[..|s| - 1], c) else 0
  }

  /** `replace(/c+$/g, "")`. */
  function StripTrailing(s: string, c: char): (r: string)
    ensures r == s[..|s| - TrailingCount(s, c)]
  {
    s[..|s| - TrailingCount(s, c)]
  }

  function Repeat(c: char, n: nat): (r: string)
    ensures |r| == n && forall i :: 0 <= i < n ==> r[i] == c
  {
    if n == 0 then [] else [c] + Repeat(c, n - 1)
  }

  /** `padEnd(n, c)`. */
  function PadEnd(s: string, n: int, c: char): (r: string)
    ensures r == if n <= |s| then s else s + Repeat(c, n - |s|)
  {
    if n <= |s| then s else s + Repeat(c, n - |s|)
  }

  // ---------------------------------------------------------------------------------------
  // binary strings (one character per byte, as `String.fromCharCode` / `charCodeAt` use them)

  function Latin1String(b: seq<byte>): (s: string)
    ensures |s| == |b| && forall i :: 0 <= i < |b| ==> s[i] as int == b[i]
  {
    seq(|b|, i requires 0 <= i < |b| => b[i] as char)
  }

  /** The bytes of a binary string, or None when a character is outside 0..255 (where
      `btoa` throws). */
  function Latin1Bytes(s: string): (r: Option<seq<byte>>)
    ensures r.Some? <==> forall i :: 0 <= i < |s| ==> s[i] as int < 256
    ensures r.Some? ==> |r.value| == |s| && forall i :: 0 <= i < |s| ==> r.value[i] == s[i] as int
  {
    if forall i :: 0 <= i < |s| ==> s[i] as int < 256
    then Some(seq(|s|, i requires 0 <= i < |s| => s[i] as int as byte))
    else None
  }

  lemma Latin1RoundTrip(b: seq<byte>)
    ensures Latin1Bytes(Latin1String(b)) == Some(b)
  {
    var s := Latin1String(b);
    assert Latin1Bytes(s).value == b;
  }

  lemma Latin1BytesRoundTrip(s: string)
    requires Latin1Bytes(s).Some?
    ensures Latin1String(Latin1Bytes(s).value) == s
  {
  }
}
