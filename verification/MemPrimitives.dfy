/** The memory primitives of exercises/02_no_std_dev/01_mem_primitives over one byte
    buffer: pointers are offsets into it, so any two regions may overlap. */
module MemPrimitives {

  type byte = x: nat | x < 256

  // ---------- copying ----------

  /** The buffer after the first n steps of a byte-by-byte copy in ascending order. */
  function CopyForward(b: seq<byte>, dst: nat, src: nat, n: nat): (c: seq<byte>)
    requires dst + n <= |b| && src + n <= |b|
    ensures |c| == |b|
  {
    if n == 0 then b
    else
      var c := CopyForward(b, dst, src, n - 1);
      c[dst + n - 1 := c[src + n - 1]]
  }

  /** The buffer with the old n bytes at src placed at dst, and nothing else changed. */
  function Moved(b: seq<byte>, dst: nat, src: nat, n: nat): (c: seq<byte>)
    requires dst + n <= |b| && src + n <= |b|
    ensures |c| == |b|
  {
    b[..dst] + b[src..src + n] + b[dst + n..]
  }

  /** Does the region at src repeat itself every d bytes? */
  predicate Periodic(b: seq<byte>, src: nat, n: nat, d: nat)
    requires src + n <= |b|
  {
    forall k :: src + d <= k < src + n ==> b[k] == b[k - d]
  }

  /** What an ascending copy leaves: outside the destination nothing changed; inside,
      the source, except that from the point where the copy reads what it has already
      written it repeats the bytes between src and dst. */
  ghost predicate Copied(b: seq<byte>, c: seq<byte>, dst: nat, src: nat, n: nat)
    requires dst + n <= |b| == |c| && src + n <= |b|
  {
    && (forall k :: 0 <= k < |b| && !(dst <= k < dst + n) ==> c[k] == b[k])
    && (forall k {:trigger c[k]} :: dst <= k < dst + n ==> c[k] == CopySource(b, c, dst, src, k))
  }

  /** Where byte k of the destination comes from. */
  function CopySource(b: seq<byte>, c: seq<byte>, dst: nat, src: nat, k: nat): byte
    requires |b| == |c| && dst <= k < |c| && k - dst + src < |b|
  {
    if src < dst && dst - src <= k - dst then c[k - dst + src] else b[k - dst + src]
  }

  lemma {:induction false} CopyForwardBytes(b: seq<byte>, dst: nat, src: nat, n: nat)
    requires dst + n <= |b| && src + n <= |b|
    ensures Copied(b, CopyForward(b, dst, src, n), dst, src, n)
  {
    if n > 0 {
      CopyForwardBytes(b, dst, src, n - 1);
      var c0, c := CopyForward(b, dst, src, n - 1), CopyForward(b, dst, src, n);
      forall k | dst <= k < dst + n ensures c[k] == CopySource(b, c, dst, src, k) {
        if k < dst + n - 1 {
          assert c0[k] == CopySource(b, c0, dst, src, k);
        } else {
          assert c[k] == c0[k - dst + src];
        }
      }
    }
  }

  // memcpy moves correctly whenever dst is not inside the source range above its
  // start, and on an overlap of that kind exactly when the source is periodic.
  lemma MemcpyMovesIff(b: seq<byte>, dst: nat, src: nat, n: nat)
    requires dst + n <= |b| && src + n <= |b|
    ensures CopyForward(b, dst, src, n) == Moved(b, dst, src, n)
            <==> dst <= src || src + n <= dst || Periodic(b, src, n, dst - src)
  {
    CopyForwardBytes(b, dst, src, n);
    MovedBytes(b, dst, src, n);
    var c, m, d := CopyForward(b, dst, src, n), Moved(b, dst, src, n), dst - src;
    if dst <= src || src + n <= dst {
      assert c == m;
    } else {
      if c == m {
        forall k | src + d <= k < src + n ensures b[k] == b[k - d] {
          assert m[k + d] == b[k] && c[k + d] == c[k] && m[k] == b[k - d];
        }
      }
      if Periodic(b, src, n, d) {
        forall k | dst <= k < dst + n ensures c[k] == m[k] {
          PeriodicBytes(b, c, dst, src, n, k);
        }
        assert c == m;
      }
    }
  }

  // The smallest overlap on which memcpy goes wrong: the first byte is smeared.
  lemma MemcpySmears(b: seq<byte>)
    requires b == [1, 2, 3]
    ensures CopyForward(b, 1, 0, 2) == [1, 1, 1] && Moved(b, 1, 0, 2) == [1, 1, 2]
  {
    assert CopyForward(b, 1, 0, 0) == b;
    assert CopyForward(b, 1, 0, 1) == [1, 1, 3];
  }

  lemma MovedBytes(b: seq<byte>, dst: nat, src: nat, n: nat)
    requires dst + n <= |b| && src + n <= |b|
    ensures forall k :: dst <= k < dst + n ==> Moved(b, dst, src, n)[k] == b[k - (dst - src)]
    ensures forall k :: 0 <= k < |b| && !(dst <= k < dst + n) ==> Moved(b, dst, src, n)[k] == b[k]
  {
  }

  lemma {:induction false} PeriodicBytes(b: seq<byte>, c: seq<byte>, dst: nat, src: nat, n: nat, k: nat)
    requires src < dst && dst + n <= |b| == |c| && dst <= k < dst + n && Periodic(b, src, n, dst - src)
    requires var d := dst - src;
             && (forall j {:trigger c[j]} :: dst <= j < dst + n && d <= j - dst ==> c[j] == c[j - d])
             && (forall j :: dst <= j < dst + n && !(d <= j - dst) ==> c[j] == b[j - d])
    ensures c[k] == b[k - (dst - src)]
    decreases k
  {
    var d := dst - src;
    if d <= k - dst {
      PeriodicBytes(b, c, dst, src, n, k - d);
      assert b[k - d] == b[k - d - d];
    }
  }

  method Memcpy(b: array<byte>, dst: nat, src: nat, n: nat) returns (r: nat)
    requires dst + n <= b.Length && src + n <= b.Length
    modifies b
    ensures r == dst && b[..] == CopyForward(old(b[..]), dst, src, n)
  {
    for i := 0 to n
      invariant b[..] == CopyForward(old(b[..]), dst, src, i)
    {
      b[dst + i] := b[src + i];
    }
    return dst;
  }

  method Memset(b: array<byte>, dst: nat, c: byte, n: nat) returns (r: nat)
    requires dst + n <= b.Length
    modifies b
    ensures r == dst
    ensures forall k :: 0 <= k < b.Length ==> b[k] == if dst <= k < dst + n then c else old(b[k])
  {
    for i := 0 to n
      invariant forall k :: 0 <= k < b.Length ==> b[k] == if dst <= k < dst + i then c else old(b[k])
    {
      b[dst + i] := c;
    }
    return dst;
  }

  method Memmove(b: array<byte>, dst: nat, src: nat, n: nat) returns (r: nat)
    requires dst + n <= b.Length && src + n <= b.Length
    modifies b
    ensures r == dst && b[..] == Moved(old(b[..]), dst, src, n)
  {
    ghost var was := b[..];
    MovedBytes(was, dst, src, n);
    if n == 0 || dst == src {
      assert was == Moved(was, dst, src, n);
      return dst;
    }
    if dst > src && dst < src + n {
      var i := n;
      while i > 0
        invariant 0 <= i <= n
        invariant forall k :: dst + i <= k < dst + n ==> b[k] == was[k - (dst - src)]
        invariant forall k :: 0 <= k < b.Length && !(dst + i <= k < dst + n) ==> b[k] == was[k]
      {
        i := i - 1;
        b[dst + i] := b[src + i];
      }
      assert b[..] == Moved(was, dst, src, n);
    } else {
      MemcpyMovesIff(was, dst, src, n);
      var _ := Memcpy(b, dst, src, n);
    }
    return dst;
  }

  // ---------- strings ----------

  ghost predicate Terminated(b: seq<byte>, s: nat) {
    exists k :: s <= k < |b| && b[k] == 0
  }

  /** A C string: the bytes before the first null. */
  ghost predicate IsCString(b: seq<byte>, s: nat, t: seq<byte>) {
    && s + |t| < |b|
    && b[s..s + |t|] == t
    && b[s + |t|] == 0
    && (forall i :: 0 <= i < |t| ==> t[i] != 0)
  }

  method Strlen(b: array<byte>, s: nat) returns (len: nat)
    requires Terminated(b[..], s)
    ensures s + len < b.Length && IsCString(b[..], s, b[s..s + len])
  {
    ghost var end :| s <= end < b.Length && b[end] == 0;
    len := 0;
    while b[s + len] != 0
      invariant s + len <= end
      invariant forall i :: s <= i < s + len ==> b[i] != 0
      decreases end - len
    {
      len := len + 1;
    }
  }

  /** Difference of the first bytes in which two null-terminated strings differ. */
  function Compare(a: seq<byte>, b: seq<byte>): int {
    if a == [] && b == [] then 0
    else if a == [] then -b[0]
    else if b == [] then a[0]
    else if a[0] != b[0] then a[0] - b[0]
    else Compare(a[1..], b[1..])
  }

  /** Byte k of a string, or the null that ends it. */
  function ByteAt(a: seq<byte>, k: nat): byte {
    if k < |a| then a[k] else 0
  }

  // The value is the difference of the bytes, or of a byte and the final null, at the first
  // place where the strings differ; and 0 if there is no such place.
  lemma {:induction false} CompareIsDifference(a: seq<byte>, b: seq<byte>, k: nat)
    requires k <= |a| && k <= |b| && a[..k] == b[..k]
    requires k < |a| && k < |b| ==> a[k] != b[k]
    ensures Compare(a, b) == ByteAt(a, k) - ByteAt(b, k)
    decreases k
  {
    if k > 0 {
      assert a[0] == a[..k][0] == b[..k][0] == b[0];
      assert a[1..][..k - 1] == a[..k][1..] && b[1..][..k - 1] == b[..k][1..];
      CompareIsDifference(a[1..], b[1..], k - 1);
    }
  }

  method Strcmp(buf: array<byte>, s1: nat, s2: nat, ghost a: seq<byte>, ghost b: seq<byte>) returns (r: int)
    requires IsCString(buf[..], s1, a) && IsCString(buf[..], s2, b)
    ensures r == Compare(a, b)
  {
    var i := 0;
    while true
      invariant i <= |a| && i <= |b|
      invariant Compare(a, b) == Compare(a[i..], b[i..])
      decreases |a| - i
    {
      var b1: int, b2: int := buf[s1 + i], buf[s2 + i];
      CStringByte(buf[..], s1, a, i);
      CStringByte(buf[..], s2, b, i);
      if b1 != b2 || b1 == 0 {
        return b1 - b2;
      }
      assert a[i..][1..] == a[i + 1..] && b[i..][1..] == b[i + 1..];
      i := i + 1;
    }
  }

  lemma CStringByte(b: seq<byte>, s: nat, t: seq<byte>, i: nat)
    requires IsCString(b, s, t) && i <= |t|
    ensures b[s + i] == if i < |t| then t[i] else 0
    ensures i < |t| ==> t[i] != 0
  {
    if i < |t| {
      assert b[s..s + |t|][i] == b[s + i];
    }
  }

  ghost predicate NoNull(a: seq<byte>) {
    forall i :: 0 <= i < |a| ==> a[i] != 0
  }

  /** Lexicographic order: a is a proper prefix of b, or smaller where they first differ. */
  ghost predicate LexLess(a: seq<byte>, b: seq<byte>) {
    exists k :: LessAt(a, b, k)
  }

  ghost predicate LessAt(a: seq<byte>, b: seq<byte>, k: int) {
    0 <= k <= |a| && k < |b| && a[..k] == b[..k] && (k == |a| || a[k] < b[k])
  }

  // The sign of strcmp decides the lexicographic order, and zero is equality.
  lemma {:induction false} CompareSign(a: seq<byte>, b: seq<byte>)
    requires NoNull(a) && NoNull(b)
    ensures Compare(a, b) < 0 <==> LexLess(a, b)
    ensures Compare(a, b) > 0 <==> LexLess(b, a)
    ensures Compare(a, b) == 0 <==> a == b
    ensures -255 <= Compare(a, b) <= 255 && Compare(b, a) == -Compare(a, b)
    decreases |a|
  {
    if a == [] || b == [] || a[0] != b[0] {
      if b != [] && (a == [] || a[0] < b[0]) {
        assert LessAt(a, b, 0);
      }
      if a != [] && (b == [] || b[0] < a[0]) {
        assert LessAt(b, a, 0);
      }
    } else {
      CompareSign(a[1..], b[1..]);
      LessTail(a, b);
      LessTail(b, a);
      assert a == [a[0]] + a[1..] && b == [b[0]] + b[1..];
    }
  }

  lemma LessTail(a: seq<byte>, b: seq<byte>)
    requires a != [] && b != [] && a[0] == b[0]
    ensures LexLess(a, b) <==> LexLess(a[1..], b[1..])
  {
    if k :| LessAt(a, b, k) {
      assert a[1..][..k - 1] == a[..k][1..] && b[1..][..k - 1] == b[..k][1..];
      assert LessAt(a[1..], b[1..], k - 1);
    }
    if k :| LessAt(a[1..], b[1..], k) {
      assert a[..k + 1] == [a[0]] + a[1..][..k] && b[..k + 1] == [b[0]] + b[1..][..k];
      assert LessAt(a, b, k + 1);
    }
  }

  // strcmp is transitive, so it orders strings totally.
  lemma {:induction false} CompareTransitive(a: seq<byte>, b: seq<byte>, c: seq<byte>)
    requires NoNull(a) && NoNull(b) && NoNull(c) && Compare(a, b) <= 0 && Compare(b, c) <= 0
    ensures Compare(a, c) <= 0 && (Compare(a, b) < 0 || Compare(b, c) < 0 ==> Compare(a, c) < 0)
    decreases |b|
  {
    if a != [] && b != [] && c != [] && a[0] == b[0] == c[0] {
      CompareTransitive(a[1..], b[1..], c[1..]);
    }
  }
}
