/** The STRING section of aids.hpp. A `String` is a `(size, data)` pair
    over bytes it does not own; it is modelled by its content, the `size`
    bytes that `data` points at. */
module Strings {
  import opened Algorithm

  datatype Option<T> = None | Some(value: T)

  type Str = seq<bv8>

  /** `isspace` in the C locale: space, `\t`, `\n`, `\v`, `\f`, `\r`. */
  predicate IsSpace(b: bv8) {
    b == 32 || 9 <= b <= 13
  }

  /** `memcmp(a, b, n)`, reduced to its sign: the first of the `n` bytes
      where `a` and `b` differ decides, compared as unsigned bytes. */
  function MemCmp(a: Str, b: Str, n: nat): (r: int)
    requires n <= |a| && n <= |b|
    ensures r == 0 <==> a[..n] == b[..n]
    ensures -1 <= r <= 1
    decreases n
  {
    if n == 0 then 0
    else if a[0] < b[0] then -1
    else if a[0] > b[0] then 1
    else
      var rest := MemCmp(a[1..], b[1..], n - 1);
      assert a[..n] == [a[0]] + a[1..][..n - 1];
      assert b[..n] == [b[0]] + b[1..][..n - 1];
      rest
  }

  /** `a == b`: equal sizes and equal bytes. */
  function Equal(a: Str, b: Str): (r: bool)
    ensures r <==> |a| == |b| && forall i :: 0 <= i < |a| ==> a[i] == b[i]
  {
    if |a| != |b| then false
    else
      assert a[..|a|] == a && b[..|b|] == b;
      MemCmp(a, b, |a|) == 0
  }

  /** `a != b`, the negation of `a == b`. */
  function NotEqual(a: Str, b: Str): (r: bool)
    ensures r <==> a != b
  {
    !Equal(a, b)
  }

  /** `chop_by_delim(s, delim)`. `s` is a pointer to a `String`: `None`
      stands for the null pointer, and `rest` is `*s` after the call. */
  method ChopByDelim(s: Option<Str>, delim: bv8) returns (token: Str, rest: Option<Str>)
    ensures s.None? || s.value == [] ==> token == [] && rest == s
    ensures s.Some? && s.value != [] ==>
      rest.Some? && delim !in token &&
      if delim in s.value then s.value == token + [delim] + rest.value
      else token == s.value && rest.value == []
  {
    if s.None? || |s.value| == 0 {
      return [], s;
    }
    var data := s.value;
    var i := 0;
    while i < |data| && data[i] != delim
      invariant i <= |data|
      invariant delim !in data[..i]
    {
      i := i + 1;
    }
    token := data[..i];
    if i == |data| {
      assert data[..i] == data;
      rest := Some([]);
    } else {
      assert data == token + [delim] + data[i + 1..];
      rest := Some(data[i + 1..]);
    }
  }

  /** The specification of `trim_begin`: drop leading whitespace. */
  function TrimmedBegin(s: Str): (r: Str)
    ensures |r| <= |s| && r == s[|s| - |r|..]
    ensures r == [] || !IsSpace(r[0])
    ensures forall i :: 0 <= i < |s| - |r| ==> IsSpace(s[i])
    decreases |s|
  {
    if |s| > 0 && IsSpace(s[0]) then TrimmedBegin(s[1..]) else s
  }

  /** The specification of `trim_end`: drop trailing whitespace. */
  function TrimmedEnd(s: Str): (r: Str)
    ensures |r| <= |s| && r == s[..|r|]
    ensures r == [] || !IsSpace(r[|r| - 1])
    ensures forall i :: |r| <= i < |s| ==> IsSpace(s[i])
    decreases |s|
  {
    if |s| > 0 && IsSpace(s[|s| - 1]) then TrimmedEnd(s[..|s| - 1]) else s
  }

  /** The specification of `trim`: `trim_begin(trim_end(s))`. */
  function Trimmed(s: Str): Str {
    TrimmedBegin(TrimmedEnd(s))
  }

  /** `trim_begin(s)`: shrinks a copy of `s` from the front while its first
      byte is whitespace. */
  method TrimBegin(s: Str) returns (r: Str)
    ensures r == TrimmedBegin(s)
  {
    r := s;
    while |r| > 0 && IsSpace(r[0])
      invariant TrimmedBegin(r) == TrimmedBegin(s)
    {
      r := r[1..];
    }
  }

  /** `trim_end(s)`: shrinks a copy of `s` from the back while its last byte
      is whitespace. */
  method TrimEnd(s: Str) returns (r: Str)
    ensures r == TrimmedEnd(s)
  {
    r := s;
    while |r| > 0 && IsSpace(r[|r| - 1])
      invariant TrimmedEnd(r) == TrimmedEnd(s)
    {
      r := r[..|r| - 1];
    }
  }

  /** `trim(s)`: `trim_begin(trim_end(s))`. */
  method Trim(s: Str) returns (r: Str)
    ensures r == Trimmed(s)
  {
    var e := TrimEnd(s);
    r := TrimBegin(e);
  }

  /** `trim` yields the slice of its input that starts `i` bytes in, where
      `i` is the length of the leading whitespace; the slice neither starts
      nor ends with whitespace, and everything cut off is whitespace. */
  lemma TrimmedIsSlice(s: Str)
    ensures var r, i := Trimmed(s), |TrimmedEnd(s)| - |Trimmed(s)|;
      0 <= i <= i + |r| <= |s| && r == s[i..i + |r|] &&
      (forall k :: 0 <= k < i ==> IsSpace(s[k])) &&
      (forall k :: i + |r| <= k < |s| ==> IsSpace(s[k])) &&
      (r == [] || (!IsSpace(r[0]) && !IsSpace(r[|r| - 1])))
  {
    var e := TrimmedEnd(s);
    var r := TrimmedBegin(e);
    var i := |e| - |r|;
    assert i + |r| == |e|;
    assert e == s[..|e|];
    assert r == e[i..];
    assert e[i..] == s[i..|e|];
    forall k | 0 <= k < i ensures IsSpace(s[k]) {
      assert s[k] == e[k];
    }
    if r != [] {
      assert r[|r| - 1] == e[|e| - 1];
    }
  }

  /** Trimming a trimmed string changes nothing. */
  lemma TrimIdempotent(s: Str)
    ensures Trimmed(Trimmed(s)) == Trimmed(s)
  {
    var r := Trimmed(s);
    TrimmedIsSlice(s);
    assert TrimmedEnd(r) == r;
    assert TrimmedBegin(r) == r;
  }

  /** `take(s, n)`: the first `min(n, size)` bytes. */
  function Take(s: Str, n: nat): (r: Str)
    ensures |r| == Min(n, |s|)
    ensures r == s[..|r|]
  {
    s[..Min(n, |s|)]
  }

  /** `drop(s, n)`: everything after the first `n` bytes, or the empty
      string when `n` exceeds the size. */
  function Drop(s: Str, n: nat): (r: Str)
    ensures n > |s| ==> r == []
    ensures n <= |s| ==> |r| == |s| - n && r == s[|s| - |r|..]
  {
    if n > |s| then [] else s[n..]
  }

  /** `take` and `drop` split a string at `n`: together they give it back,
      whatever `n` is. */
  lemma TakeDropSplit(s: Str, n: nat)
    ensures Take(s, n) + Drop(s, n) == s
    ensures n >= |s| ==> Take(s, n) == s && Drop(s, n) == []
  {
    if n > |s| {
      assert Take(s, n) == s[..|s|];
    }
  }
}
