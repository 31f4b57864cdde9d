/** Types shared by the models of the client and of the test framework. */
module Common {
  /** An octet of a stream that the code compares and adds but never masks. */
  type byte = x: int | 0 <= x < 256

  datatype Option<+T> = None | Some(value: T)

  function Min(a: int, b: int): int {
    if a <= b then a else b
  }

  function Max(a: int, b: int): int {
    if a <= b then b else a
  }

  datatype Errno = NoError | EINTR | EAGAIN | EOTHER

  /** A string read off a buffer ends at the first NUL. */
  function CString<T(==)>(s: seq<T>, nul: T): seq<T> {
    if s == [] || s[0] == nul then [] else [s[0]] + CString(s[1..], nul)
  }

  lemma {:induction false} CStringWhole<T>(s: seq<T>, nul: T)
    ensures |CString(s, nul)| <= |s| && (CString(s, nul) == s <==> nul !in s)
  {
    if s != [] && s[0] != nul {
      CStringWhole(s[1..], nul);
      assert s == [s[0]] + s[1..];
    }
  }

  lemma {:induction false} CStringOf<T>(chars: seq<T>, rest: seq<T>, nul: T)
    requires nul !in chars && rest != [] && rest[0] == nul
    ensures CString(chars + rest, nul) == chars
  {
    if chars == [] {
      assert chars + rest == rest;
    } else {
      var all, tail := chars + rest, chars[1..];
      assert all[1..] == tail + rest && all[0] == chars[0];
      CStringOf(tail, rest, nul);
      assert chars == [chars[0]] + tail;
    }
  }

  predicate Distinct<E(==)>(s: seq<E>) {
    forall i, j :: 0 <= i < j < |s| ==> s[i] != s[j]
  }

  /** The lists put together. */
  function Flatten<T>(lists: seq<seq<T>>): seq<T> {
    if lists == [] then [] else lists[0] + Flatten(lists[1..])
  }

  lemma {:induction false} FlattenAppend<T>(a: seq<seq<T>>, b: seq<seq<T>>)
    ensures Flatten(a + b) == Flatten(a) + Flatten(b)
  {
    if a == [] {
      assert a + b == b;
    } else {
      assert a + b == [a[0]] + (a[1..] + b);
      FlattenAppend(a[1..], b);
    }
  }

  lemma MulAtLeast(a: int, b: int)
    requires a >= 1 && b >= 0
    ensures a * b >= b
  {
    assert a * b == (a - 1) * b + b;
    assert (a - 1) * b >= 0;
  }

  lemma UniqueQuotient(x: int, d: int, q: int, r: int)
    requires d > 0 && x == q * d + r && 0 <= r < d
    ensures x / d == q && x % d == r
  {
    var q', r' := x / d, x % d;
    assert x == q' * d + r';
    assert (q - q') * d == r' - r;
    assert (q' - q) * d == r - r';
    if q > q' {
      MulAtLeast(q - q', d);
    } else if q < q' {
      MulAtLeast(q' - q, d);
    }
  }

  lemma Associative<T>(a: seq<T>, b: seq<T>, c: seq<T>)
    ensures (a + b) + c == a + (b + c)
  {
  }

  lemma SplitJoin<T>(s: seq<T>, k: nat)
    requires k <= |s|
    ensures s[..k] + s[k..] == s
  {
  }

  lemma DropAppended<T>(s: seq<T>, t: seq<T>, k: nat)
    requires k <= |s|
    ensures (s + t)[k..] == s[k..] + t && (s + t)[..k] == s[..k]
  {
  }

  lemma DropDrop<T>(s: seq<T>, a: nat, b: nat)
    requires a + b <= |s|
    ensures s[a..][b..] == s[a + b..]
  {
  }
}
