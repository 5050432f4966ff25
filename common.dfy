/** Small value types shared by the modules of this model: an option type
    standing for a nullable pointer or Python's None, and a few sequence
    helpers. */
module Common {

  datatype Option<+T> = None | Some(value: T)

  /** The first element of `s`, or `dflt` for the empty sequence
      (`g_utf8_get_char` on an empty string yields the NUL character). */
  function FirstOr<T>(s: seq<T>, dflt: T): (r: T)
    ensures s != [] ==> r == s[0]
    ensures s == [] ==> r == dflt
  {
    if s == [] then dflt else s[0]
  }

  /** Number of occurrences of `x` in `s`. */
  function Count<T(==)>(s: seq<T>, x: T): (n: nat)
    ensures n <= |s|
    ensures n == 0 <==> x !in s
  {
    if s == [] then 0 else (if s[0] == x then 1 else 0) + Count(s[1..], x)
  }

  lemma {:induction false} CountAppend<T>(a: seq<T>, b: seq<T>, x: T)
    ensures Count(a + b, x) == Count(a, x) + Count(b, x)
  {
    if a == [] {
      assert a + b == b;
    } else {
      assert (a + b)[1..] == a[1..] + b;
      CountAppend(a[1..], b, x);
    }
  }

  /** Concatenation regrouped, for proofs whose terms the solver would
      otherwise compare element by element. */
  lemma ConcatAssoc<T>(a: seq<T>, b: seq<T>, c: seq<T>)
    ensures a + (b + c) == (a + b) + c
  {
  }

  /** Two sequences that agree on their first `k` elements agree on any
      shorter prefix. */
  lemma PrefixOfPrefix<T>(a: seq<T>, b: seq<T>, i: nat, k: nat)
    requires i <= k <= |a| && k <= |b| && a[..k] == b[..k]
    ensures a[..i] == b[..i]
  {
    assert forall j :: 0 <= j < i ==> a[j] == a[..k][j];
  }

  /** `s` with its first occurrence of `x` taken out (Python's list.remove,
      GLib's g_list_remove); `s` itself when `x` does not occur. */
  function RemoveFirst<T(==)>(s: seq<T>, x: T): (r: seq<T>)
    ensures x in s ==> |r| == |s| - 1
    ensures x !in s ==> r == s
    ensures forall i :: 0 <= i < |r| ==> r[i] in s
  {
    if s == [] then []
    else if s[0] == x then s[1..]
    else [s[0]] + RemoveFirst(s[1..], x)
  }

  /** The index of the first occurrence of `x` in `s`. */
  function IndexOf<T(==)>(s: seq<T>, x: T): (i: nat)
    requires x in s
    ensures i < |s| && s[i] == x && x !in s[..i]
  {
    if s[0] == x then 0 else 1 + IndexOf(s[1..], x)
  }

  /** Removing the first occurrence cuts out exactly the element at its
      index. */
  lemma {:induction false} RemoveFirstAt<T>(s: seq<T>, x: T)
    requires x in s
    ensures RemoveFirst(s, x) == s[..IndexOf(s, x)] + s[IndexOf(s, x) + 1..]
  {
    if s[0] != x {
      RemoveFirstAt(s[1..], x);
      var i := IndexOf(s[1..], x);
      assert s[..i + 1] == [s[0]] + s[1..][..i];
      assert s[i + 2..] == s[1..][i + 1..];
    }
  }

  /** `s` with every occurrence of `x` taken out. */
  function RemoveAll<T(==)>(s: seq<T>, x: T): (r: seq<T>)
    ensures x !in r
    ensures forall i :: 0 <= i < |r| ==> r[i] in s
    ensures forall i :: 0 <= i < |s| && s[i] != x ==> s[i] in r
  {
    if s == [] then []
    else if s[0] == x then RemoveAll(s[1..], x)
    else [s[0]] + RemoveAll(s[1..], x)
  }

  /** No element occurs twice in `s`. */
  predicate NoDuplicates<T(==)>(s: seq<T>)
  {
    forall i, j :: 0 <= i < j < |s| ==> s[i] != s[j]
  }

  /** Putting in front an element the list does not hold keeps it free of
      duplicates. */
  lemma ConsNoDuplicates<T>(a: T, t: seq<T>)
    requires a !in t && NoDuplicates(t)
    ensures NoDuplicates([a] + t)
  {
    var r := [a] + t;
    forall i, j | 0 <= i < j < |r| ensures r[i] != r[j] {
      assert r[j] == t[j - 1];
      if i == 0 {
        assert t[j - 1] in t;
      } else {
        assert r[i] == t[i - 1];
      }
    }
  }

  /** On a list without duplicates, removing the first occurrence of `x`
      removes `x` altogether, keeps every other element, and brings in
      none. */
  lemma {:induction false} RemoveFirstNoDup<T>(s: seq<T>, x: T)
    requires NoDuplicates(s)
    ensures NoDuplicates(RemoveFirst(s, x)) && x !in RemoveFirst(s, x)
    ensures forall y :: y in RemoveFirst(s, x) <==> y in s && y != x
  {
    if s != [] {
      assert s[0] !in s[1..] by {
        forall k | 0 <= k < |s| - 1 ensures s[1..][k] != s[0] {
          assert s[1..][k] == s[k + 1];
        }
      }
      assert NoDuplicates(s[1..]) by {
        forall i, j | 0 <= i < j < |s| - 1 ensures s[1..][i] != s[1..][j] {
          assert s[1..][i] == s[i + 1] && s[1..][j] == s[j + 1];
        }
      }
      if s[0] != x {
        RemoveFirstNoDup(s[1..], x);
        ConsNoDuplicates(s[0], RemoveFirst(s[1..], x));
      }
    }
  }

  predicate IsPrefix<T(==)>(p: seq<T>, s: seq<T>)
  {
    |p| <= |s| && s[..|p|] == p
  }

  function Min(a: int, b: int): (r: int)
    ensures r <= a && r <= b && (r == a || r == b)
  {
    if a <= b then a else b
  }

  function Max(a: int, b: int): (r: int)
    ensures r >= a && r >= b && (r == a || r == b)
  {
    if a >= b then a else b
  }

  /** Number of bytes of the UTF-8 encoding of one character. */
  function Utf8CharLen(c: char): (n: nat)
    ensures 1 <= n <= 4
  {
    if c as int < 0x80 then 1
    else if c as int < 0x800 then 2
    else if c as int < 0x10000 then 3
    else 4
  }

  /** Number of bytes of the UTF-8 encoding of `s` (C's `strlen`). */
  function Utf8Len(s: string): (n: nat)
    ensures n >= |s|
  {
    if s == [] then 0 else Utf8CharLen(s[0]) + Utf8Len(s[1..])
  }

  /** The prefix of `s` whose UTF-8 encoding is `n` bytes long, given as its
      number of characters; None when no character boundary lies at byte `n`. */
  function CharsForBytes(s: string, n: int): (r: Option<nat>)
    ensures r.Some? ==> r.value <= |s| && Utf8Len(s[..r.value]) == n
    decreases |s|
  {
    if n == 0 then Some(0)
    else if n < 0 || s == [] then None
    else
      match CharsForBytes(s[1..], n - Utf8CharLen(s[0]))
      case None => None
      case Some(k) =>
        assert s[..k + 1][1..] == s[1..][..k];
        Some(k + 1)
  }

  /** The text a `(text, length)` pair of the GLib string helpers denotes:
      all of `text` for a negative length (`strlen`), else its first
      `length` bytes. */
  function Span(text: string, length: int): (r: string)
    requires length < 0 || CharsForBytes(text, length).Some?
    ensures length < 0 ==> r == text
    ensures length >= 0 ==> Utf8Len(r) == length && IsPrefix(r, text)
  {
    if length < 0 then text else text[..CharsForBytes(text, length).value]
  }

  newtype byte = x: int | 0 <= x < 256
}
