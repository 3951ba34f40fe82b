/** Byte-level vocabulary shared by the scoreboard protocol modules. */
module Bytes {

  /** One octet on the wire; Python `bytes` elements are ints in 0..255. */
  type byte = bv8

  datatype Option<+T> = None | Some(value: T)

  /** Python's `bytes.find(x, start)`: the first index at or after `start`
      holding `x`, or -1 when there is none (IndexOfSpec). */
  function IndexOf(s: seq<byte>, x: byte, start: nat): (i: int)
    ensures i == -1 || (start <= i < |s| && s[i] == x)
    decreases |s| - start
  {
    if start >= |s| then -1
    else if s[start] == x then start
    else IndexOf(s, x, start + 1)
  }

  /** The search returns -1 exactly when no byte from `start` on is `x`, and
      otherwise the first index at or after `start` holding `x`. */
  lemma {:induction false} IndexOfSpec(s: seq<byte>, x: byte, start: nat)
    ensures var i := IndexOf(s, x, start);
      (i == -1 <==> forall j :: start <= j < |s| ==> s[j] != x) &&
      (i != -1 ==> start <= i < |s| && s[i] == x) &&
      (forall j :: start <= j < i ==> s[j] != x)
    decreases |s| - start
  {
    if start < |s| && s[start] != x {
      IndexOfSpec(s, x, start + 1);
    }
  }

  /** The search result is pinned down by one hit with no earlier hit. */
  lemma IndexOfIs(s: seq<byte>, x: byte, start: nat, i: int)
    requires i == -1 ==> forall j :: start <= j < |s| ==> s[j] != x
    requires i != -1 ==> start <= i < |s| && s[i] == x && forall j :: start <= j < i ==> s[j] != x
    ensures IndexOf(s, x, start) == i
  {
    IndexOfSpec(s, x, start);
  }

  /** Two sequences that agree from `start` on give the same search result. */
  lemma IndexOfAgree(s: seq<byte>, t: seq<byte>, x: byte, start: nat)
    requires |s| == |t|
    requires forall j :: start <= j < |s| ==> s[j] == t[j]
    ensures IndexOf(s, x, start) == IndexOf(t, x, start)
  {
    IndexOfSpec(s, x, start);
    IndexOfIs(t, x, start, IndexOf(s, x, start));
  }

  /** Appending bytes does not move a match that is already present. */
  lemma IndexOfAppend(s: seq<byte>, t: seq<byte>, x: byte, start: nat)
    requires IndexOf(s, x, start) != -1
    ensures IndexOf(s + t, x, start) == IndexOf(s, x, start)
  {
    IndexOfSpec(s, x, start);
    var i := IndexOf(s, x, start);
    assert (s + t)[i] == x;
    assert forall j :: start <= j < i ==> (s + t)[j] == s[j];
    IndexOfIs(s + t, x, start, i);
  }

  /** Searching past a prefix is searching the suffix, shifted. */
  lemma {:induction false} IndexOfShift(g: seq<byte>, c: seq<byte>, x: byte, k: nat)
    ensures IndexOf(g + c, x, |g| + k) == if IndexOf(c, x, k) == -1 then -1 else |g| + IndexOf(c, x, k)
    decreases |c| - k
  {
    if k < |c| {
      assert (g + c)[|g| + k] == c[k];
      if c[k] != x {
        IndexOfShift(g, c, x, k + 1);
      }
    }
  }

  /** A prefix that does not hold x is skipped by the search. */
  lemma {:induction false} IndexOfSkipPrefix(g: seq<byte>, c: seq<byte>, x: byte, start: nat)
    requires forall j :: start <= j < |g| ==> g[j] != x
    ensures IndexOf(g + c, x, start) == IndexOf(g + c, x, if start <= |g| then |g| else start)
    decreases |g| - start
  {
    if start < |g| {
      assert (g + c)[start] == g[start];
      IndexOfSkipPrefix(g, c, x, start + 1);
    }
  }

  /** An ASCII decimal digit '0'..'9'. */
  predicate IsDigit(b: byte) {
    0x30 <= b <= 0x39
  }

  /** The value of an ASCII digit byte. */
  function DigitValue(b: byte): (d: int)
    ensures IsDigit(b) ==> 0 <= d <= 9
  {
    b as int - 0x30
  }

  /** Printable ASCII, 0x20..0x7E. */
  predicate IsPrintable(b: byte) {
    0x20 <= b <= 0x7E
  }

  /** Python's `chr(b)` for a byte. */
  function ToChar(b: byte): char {
    (b as int) as char
  }

  /** The concatenation of a sequence of sequences, in order. */
  function Flatten<T>(ss: seq<seq<T>>): seq<T> {
    if ss == [] then [] else ss[0] + Flatten(ss[1..])
  }

  lemma FlattenAppend<T>(a: seq<seq<T>>, b: seq<seq<T>>)
    ensures Flatten(a + b) == Flatten(a) + Flatten(b)
  {
    if a == [] {
      assert a + b == b;
    } else {
      assert (a + b)[1..] == a[1..] + b;
      FlattenAppend(a[1..], b);
    }
  }

  function Min(a: int, b: int): int {
    if a <= b then a else b
  }
}
