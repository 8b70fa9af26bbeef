/**
 * Six-byte MAC addresses as the queue stores and compares them: the
 * address width of includes/mac.h, `strncpy` with a length of six (how
 * PriorityMacQueue.c copies addresses in and out of the queue) and
 * `macEquals`, taken to be a comparison of all six bytes.
 */
module MacAddress {

  type Byte = bv8

  /** NETFREE_MAC_SIZE: the number of bytes of an address. */
  const MacSize: nat := 6

  /** No byte of `s` is zero. */
  predicate NulFree(s: seq<Byte>) {
    forall i :: 0 <= i < |s| ==> s[i] != 0
  }

  /** Once a zero byte occurs in `s`, every later byte is zero too. */
  predicate NulPadded(s: seq<Byte>) {
    forall i, j :: 0 <= i < j < |s| && s[i] == 0 ==> s[j] == 0
  }

  function Zeros(n: nat): (r: seq<Byte>)
    ensures |r| == n && forall i :: 0 <= i < n ==> r[i] == 0
  {
    seq(n, _ => 0)
  }

  /**
   * The `n` bytes that `strncpy(dest, src, n)` leaves in `dest`: the bytes of
   * `src` up to its first zero byte, then zeros up to `n`.
   */
  function StrncpyCopy(src: seq<Byte>, n: nat): (r: seq<Byte>)
    requires n <= |src|
    ensures |r| == n
  {
    if n == 0 then []
    else if src[0] == 0 then Zeros(n)
    else [src[0]] + StrncpyCopy(src[1..], n - 1)
  }

  /** Byte `i` of the copy is byte `i` of the source while no zero byte came before it, else zero. */
  lemma {:induction false} StrncpyCopyAt(src: seq<Byte>, n: nat)
    requires n <= |src|
    ensures forall i :: 0 <= i < n ==> StrncpyCopy(src, n)[i] == if NulFree(src[..i]) then src[i] else 0
  {
    if n > 0 && src[0] != 0 {
      StrncpyCopyAt(src[1..], n - 1);
      forall i | 1 <= i < n
        ensures StrncpyCopy(src, n)[i] == if NulFree(src[..i]) then src[i] else 0
      {
        assert src[..i] == [src[0]] + src[1..][..i - 1];
      }
    }
  }

  /** A byte string is copied unchanged exactly when it is zero-padded. */
  lemma {:induction false} StrncpyCopyUnchangedIff(s: seq<Byte>)
    ensures StrncpyCopy(s, |s|) == s <==> NulPadded(s)
  {
    var r := StrncpyCopy(s, |s|);
    StrncpyCopyAt(s, |s|);
    if NulPadded(s) {
      forall i | 0 <= i < |s| ensures r[i] == s[i] {
        if !NulFree(s[..i]) {
          var z :| 0 <= z < i && s[..i][z] == 0;
          assert s[z] == 0;
        }
      }
    }
    if r == s {
      forall i, j | 0 <= i < j < |s| && s[i] == 0 ensures s[j] == 0 {
        assert s[..j][i] == 0;
        assert r[j] == 0;
      }
    }
  }

  /** A string without zero bytes is copied unchanged. */
  lemma NulFreeCopiedUnchanged(s: seq<Byte>)
    requires NulFree(s)
    ensures StrncpyCopy(s, |s|) == s
  {
    StrncpyCopyUnchangedIff(s);
  }

  /** Copying a copy changes nothing: what strncpy stores is zero-padded. */
  lemma {:induction false} StrncpyCopyIdempotent(s: seq<Byte>, n: nat)
    requires n <= |s|
    ensures NulPadded(StrncpyCopy(s, n))
    ensures StrncpyCopy(StrncpyCopy(s, n), n) == StrncpyCopy(s, n)
  {
    var r := StrncpyCopy(s, n);
    StrncpyCopyAt(s, n);
    forall i, j | 0 <= i < j < n && r[i] == 0 ensures r[j] == 0 {
      if NulFree(s[..i]) {
        assert s[i] == 0;
        assert s[..j][i] == 0;
      } else {
        var z :| 0 <= z < i && s[..i][z] == 0;
        assert s[..j][z] == 0;
      }
      assert !NulFree(s[..j]);
    }
    StrncpyCopyUnchangedIff(r);
  }

  /** An address as the queue stores it: six bytes, zero-padded after the first zero. */
  predicate StoredMac(m: seq<Byte>) {
    |m| == MacSize && NulPadded(m)
  }

  /** What strncpy stores is a stored address, and a stored address is copied unchanged. */
  lemma StoredMacIff(m: seq<Byte>)
    requires |m| == MacSize
    ensures StoredMac(StrncpyCopy(m, MacSize))
    ensures StoredMac(m) <==> StrncpyCopy(m, MacSize) == m
  {
    StrncpyCopyIdempotent(m, MacSize);
    StrncpyCopyUnchangedIff(m);
  }

  /** `macEquals`: the two six-byte addresses agree in every byte. */
  function MacEquals(a: seq<Byte>, b: seq<Byte>): (r: bool)
    requires |a| == MacSize && |b| == MacSize
    ensures r <==> forall i :: 0 <= i < MacSize ==> a[i] == b[i]
  {
    assert (forall i :: 0 <= i < MacSize ==> a[i] == b[i]) ==> a == b;
    a == b
  }

  /** `strncpy(dest, src, n)` on a caller's buffer: the first `n` bytes are replaced. */
  method Strncpy(dest: array<Byte>, src: seq<Byte>, n: nat)
    requires n <= dest.Length && n <= |src|
    modifies dest
    ensures dest[..n] == StrncpyCopy(src, n)
    ensures dest[n..] == old(dest[n..])
  {
    var copy := StrncpyCopy(src, n);
    forall i | 0 <= i < n {
      dest[i] := copy[i];
    }
  }
}
