/**
 * The reference-counting runtime that generated C code links against
 * (src/backend/gen_libs/core.c and the GeraAllocation record of
 * src/backend/gen_libs/gera.h).
 *
 * An allocation record carries a reference count `rc`, the byte size of its
 * payload and the free handler that releases whatever the payload owns.
 * `malloc`/`free` themselves are not modelled: a record is either live or
 * released (`freed`), and every call of a free handler made on the record's
 * behalf is logged in `handlerCalls`.
 */
module CoreRuntime {

  /** `size_t` is an unsigned 64-bit integer on the supported targets. */
  const SIZE_T_MODULUS: nat := 0x1_0000_0000_0000_0000

  newtype byte = x: int | 0 <= x < 256

  /** A `GeraFreeHandler`: either `gera___free_nothing` or some generated handler. */
  datatype FreeHandler = FreeNothing | Generated(id: nat)

  /** One invocation of a free handler, with the payload size it was given. */
  datatype HandlerCall = HandlerCall(handler: FreeHandler, size: nat)

  class Allocation {
    var rc: nat
    var size: nat
    var fh: FreeHandler
    var freed: bool
    var handlerCalls: seq<HandlerCall>

    /** Counters fit a `size_t`; the handler was called exactly once iff the record was released. */
    ghost predicate Valid()
      reads this
    {
      rc < SIZE_T_MODULUS && size < SIZE_T_MODULUS &&
      handlerCalls == (if freed then [HandlerCall(fh, size)] else [])
    }

    /** `gera___rc_alloc`: a fresh record owned by exactly one reference. */
    constructor Alloc(size: nat, fh: FreeHandler)
      requires size < SIZE_T_MODULUS
      ensures Valid()
      ensures this.rc == 1 && this.size == size && this.fh == fh
      ensures !freed && handlerCalls == []
    {
      this.rc := 1;
      this.size := size;
      this.fh := fh;
      this.freed := false;
      this.handlerCalls := [];
    }

    /** `gera___rc_incr`: one more reference; `rc` wraps around like a `size_t`. */
    method Incr()
      requires Valid() && !freed
      modifies this`rc
      ensures Valid()
      ensures rc == (old(rc) + 1) % SIZE_T_MODULUS
    {
      rc := (rc + 1) % SIZE_T_MODULUS;
    }

    /** `gera___rc_free`: call the free handler once on the payload, then release the record. */
    method Free()
      requires Valid() && !freed
      modifies this`freed, this`handlerCalls
      ensures Valid() && freed
      ensures handlerCalls == old(handlerCalls) + [HandlerCall(fh, size)]
    {
      handlerCalls := handlerCalls + [HandlerCall(fh, size)];
      freed := true;
    }

    /**
     * `gera___rc_decr`: one reference less; the record is released exactly
     * when the count reaches zero (a count of zero wraps to the maximum).
     */
    method Decr()
      requires Valid() && !freed
      modifies this`rc, this`freed, this`handlerCalls
      ensures Valid()
      ensures rc == (old(rc) + SIZE_T_MODULUS - 1) % SIZE_T_MODULUS
      ensures freed <==> rc == 0
      ensures handlerCalls == if rc == 0 then [HandlerCall(fh, size)] else []
    {
      rc := (rc + SIZE_T_MODULUS - 1) % SIZE_T_MODULUS;
      if rc == 0 {
        Free();
      }
    }
  }

  /** Index of the terminating NUL of a C string: the first zero byte. */
  function NulIndex(s: seq<byte>): (n: nat)
    requires 0 in s
    ensures n < |s| && s[n] == 0
    ensures forall k :: 0 <= k < n ==> s[k] != 0
  {
    if s[0] == 0 then 0 else 1 + NulIndex(s[1..])
  }

  /** The characters of a C string: everything before its terminating NUL. */
  function CString(s: seq<byte>): seq<byte>
    requires 0 in s
  {
    s[..NulIndex(s)]
  }

  /**
   * Two C strings have the same characters exactly when the buffers agree at
   * every index up to and including the first NUL of the first one.
   */
  lemma CStringEqualIff(a: seq<byte>, b: seq<byte>)
    requires 0 in a && 0 in b
    ensures CString(a) == CString(b) <==>
      (NulIndex(a) < |b| && forall k :: 0 <= k <= NulIndex(a) ==> a[k] == b[k])
  {
    var na, nb := NulIndex(a), NulIndex(b);
    if na < |b| && forall k :: 0 <= k <= na ==> a[k] == b[k] {
      assert nb == na by { assert b[na] == a[na] == 0; }
      assert CString(a) == CString(b);
    }
    if CString(a) == CString(b) {
      assert na == nb by { assert |CString(a)| == na && |CString(b)| == nb; }
      forall k | 0 <= k <= na ensures a[k] == b[k] {
        if k < na { assert a[k] == CString(a)[k] && b[k] == CString(b)[k]; }
      }
    }
  }

  /**
   * The loop's condition does not depend on which string comes first, though
   * it only ever looks for the NUL of one of them.
   */
  lemma StringEqSymmetric(a: seq<byte>, b: seq<byte>)
    requires 0 in a && 0 in b
    ensures (NulIndex(a) < |b| && forall k :: 0 <= k <= NulIndex(a) ==> a[k] == b[k]) <==>
            (NulIndex(b) < |a| && forall k :: 0 <= k <= NulIndex(b) ==> b[k] == a[k])
  {
    CStringEqualIff(a, b);
    CStringEqualIff(b, a);
  }

  /**
   * `gera___string_eq`: 1 when the two NUL-terminated strings hold the same
   * characters, 0 otherwise. Both buffers must hold a NUL (the loop reads
   * until it meets one in either string).
   */
  method StringEq(a: array<byte>, b: array<byte>) returns (r: byte)
    requires 0 in a[..] && 0 in b[..]
    ensures r == 1 || r == 0
    ensures r == 1 <==> CString(a[..]) == CString(b[..])
  {
    ghost var na, nb := NulIndex(a[..]), NulIndex(b[..]);
    var i := 0;
    while true
      invariant i <= na && i <= nb
      invariant forall k :: 0 <= k < i ==> a[k] == b[k] && a[k] != 0
      decreases na - i
    {
      if a[i] != b[i] {
        CStringEqualIff(a[..], b[..]);
        return 0;
      }
      if a[i] != 0 {
        i := i + 1;
        continue;
      }
      CStringEqualIff(a[..], b[..]);
      return 1;
    }
  }
}
