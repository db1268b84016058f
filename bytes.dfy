/** Byte strings as the server's C code handles them: fixed `char` buffers,
    NUL-terminated strings, prefixes, and what `snprintf` keeps of a string. */
module Bytes {

  /** One element of a C `char` buffer. Only equality and the digit and white-space
      classes of `char` values matter to the server, so a Dafny `char` stands for it. */
  type byte = char

  type Bytes = seq<byte>

  datatype Option<T> = None | Some(value: T)

  const NUL: byte := '\0'

  /** BUFFER_SIZE: the size of every local buffer of the server. */
  const BufferSize: nat := 4096

  predicate StartsWith<T(==)>(s: seq<T>, p: seq<T>)
  {
    |p| <= |s| && s[..|p|] == p
  }

  /** The elements of `s` before the first `stop`, or all of `s` when there is none. */
  function Until<T(==)>(s: seq<T>, stop: T): (r: seq<T>)
    ensures StartsWith(s, r)
    ensures stop !in r
    ensures |r| < |s| ==> s[|r|] == stop
  {
    if s == [] || s[0] == stop then []
    else
      var tail := Until(s[1..], stop);
      assert s[..1 + |tail|] == [s[0]] + s[1..][..|tail|];
      [s[0]] + tail
  }

  /** The C string that a NUL-terminated buffer spells. */
  function CString(s: Bytes): Bytes
  {
    Until(s, NUL)
  }

  /** The three facts `Until` promises determine it: any cut point `k` before which
      `stop` does not occur, and at which `stop` occurs or `s` ends, is where it cuts. */
  lemma {:induction false} UntilUnique<T>(s: seq<T>, stop: T, k: nat)
    requires k <= |s|
    requires stop !in s[..k]
    requires k == |s| || s[k] == stop
    ensures Until(s, stop) == s[..k]
  {
    if k > 0 {
      assert s[0] == s[..k][0];
      assert s[1..][..k - 1] == s[1..k];
      assert forall x :: x in s[1..k] ==> x in s[..k];
      UntilUnique(s[1..], stop, k - 1);
      assert s[..k] == [s[0]] + s[1..k];
    }
  }

  /** A leading part free of `stop` passes through `Until` untouched. */
  lemma {:induction false} UntilAppend<T>(p: seq<T>, s: seq<T>, stop: T)
    requires stop !in p
    ensures Until(p + s, stop) == p + Until(s, stop)
  {
    if p != [] {
      assert p[0] in p;
      assert (p + s)[1..] == p[1..] + s;
      assert forall x :: x in p[1..] ==> x in p;
      UntilAppend(p[1..], s, stop);
      assert p == [p[0]] + p[1..];
    } else {
      assert p + s == s;
    }
  }

  /** What `snprintf(buf, n + 1, "%s", s)` leaves in `buf`: at most `n` bytes of `s`. */
  function Truncate<T>(s: seq<T>, n: nat): (r: seq<T>)
  {
    if |s| <= n then s else s[..n]
  }

  /** The number of bytes in a sequence of buffers, as a count of sent bytes. */
  function TotalLength(parts: seq<Bytes>): nat
  {
    if parts == [] then 0 else TotalLength(parts[..|parts| - 1]) + |parts[|parts| - 1]|
  }

  lemma {:induction false} TotalLengthAppend(a: seq<Bytes>, b: seq<Bytes>)
    ensures TotalLength(a + b) == TotalLength(a) + TotalLength(b)
  {
    if b != [] {
      assert (a + b)[..|a + b| - 1] == a + b[..|b| - 1];
      TotalLengthAppend(a, b[..|b| - 1]);
    } else {
      assert a + b == a;
    }
  }

  /** Concatenation regroups freely. */
  lemma AppendAssoc<T>(a: seq<T>, b: seq<T>, c: seq<T>)
    ensures a + b + c == a + (b + c)
  {
  }
}
