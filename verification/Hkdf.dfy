// ManualHkdfSha256Expand of AziHsmBKS3.c against HKDF-Expand, section 2.3 of
// RFC 5869. HMAC-SHA256 is any function with 32-byte results.
module Hkdf {
  import opened Common

  const DIGEST: nat := 32
  const MAX_BLOCKS: nat := 255
  const MAX_INFO := 256

  type Hmac = (seq<Byte>, seq<Byte>) -> seq<Byte>

  ghost predicate Digests(hmac: Hmac) {
    forall key, message :: |hmac(key, message)| == DIGEST
  }

  // ---- RFC 5869 ----

  // T(i): empty for 0, then the HMAC of the block before, the info and the count.
  function T(hmac: Hmac, prk: seq<Byte>, info: seq<Byte>, i: nat): seq<Byte>
    requires i <= MAX_BLOCKS
  {
    if i == 0 then [] else hmac(prk, T(hmac, prk, info, i - 1) + info + [i])
  }

  // T(1) | T(2) | ... | T(n).
  function Blocks(hmac: Hmac, prk: seq<Byte>, info: seq<Byte>, n: nat): seq<Byte>
    requires n <= MAX_BLOCKS
  {
    if n == 0 then [] else Blocks(hmac, prk, info, n - 1) + T(hmac, prk, info, n)
  }

  lemma {:induction false} BlocksLength(hmac: Hmac, prk: seq<Byte>, info: seq<Byte>, n: nat)
    requires Digests(hmac) && n <= MAX_BLOCKS
    ensures |Blocks(hmac, prk, info, n)| == DIGEST * n
    ensures n > 0 ==> |T(hmac, prk, info, n)| == DIGEST
  {
    if n > 0 { BlocksLength(hmac, prk, info, n - 1); }
  }

  function BlockCount(length: nat): nat {
    (length + DIGEST - 1) / DIGEST
  }

  // The first bytes of the blocks.
  ghost function Expanded(hmac: Hmac, prk: seq<Byte>, info: seq<Byte>, length: nat): seq<Byte>
    requires Digests(hmac) && length <= MAX_BLOCKS * DIGEST
  {
    BlocksLength(hmac, prk, info, BlockCount(length));
    Blocks(hmac, prk, info, BlockCount(length))[..length]
  }

  lemma {:induction false} BlocksPrefix(hmac: Hmac, prk: seq<Byte>, info: seq<Byte>, m: nat, n: nat)
    requires m <= n <= MAX_BLOCKS
    ensures Blocks(hmac, prk, info, m) <= Blocks(hmac, prk, info, n)
  {
    if m < n { BlocksPrefix(hmac, prk, info, m, n - 1); }
  }

  // A shorter key is the front of a longer one.
  lemma ExpandedPrefix(hmac: Hmac, prk: seq<Byte>, info: seq<Byte>, short: nat, long: nat)
    requires Digests(hmac) && short <= long <= MAX_BLOCKS * DIGEST
    ensures Expanded(hmac, prk, info, short) <= Expanded(hmac, prk, info, long)
  {
    BlocksPrefix(hmac, prk, info, BlockCount(short), BlockCount(long));
    BlocksLength(hmac, prk, info, BlockCount(short));
    BlocksLength(hmac, prk, info, BlockCount(long));
    var a, b := Blocks(hmac, prk, info, BlockCount(short)), Blocks(hmac, prk, info, BlockCount(long));
    assert a == b[..|a|];
  }

  // ---- The implementation ----

  datatype Status = Success | InvalidParameter | DeviceError

  // HmacSha256All, which may fail.
  method HmacAll(hmac: Hmac, works: bool, key: seq<Byte>, message: seq<Byte>) returns (ok: bool, digest: seq<Byte>)
    ensures ok == works && (ok ==> digest == hmac(key, message))
  {
    ok, digest := works, hmac(key, message);
  }

  // CopyMem.
  method Copy(target: array<Byte>, offset: nat, source: seq<Byte>, count: nat)
    requires offset + count <= target.Length && count <= |source|
    modifies target
    ensures target[..] == old(target[..offset]) + source[..count] + old(target[offset + count..])
  {
    for i := 0 to count
      invariant forall k :: 0 <= k < target.Length ==>
        target[k] == if offset <= k < offset + i then source[k - offset] else old(target[k])
    {
      target[offset + i] := source[i];
    }
  }

  // ManualHkdfSha256Expand. The counter is an 8-bit number; works says which of the
  // HMAC computations succeed, counted from 1.
  method Expand(hmac: Hmac, works: nat -> bool, prk: seq<Byte>, info: seq<Byte>, key: array<Byte>, size: nat)
    returns (status: Status)
    requires Digests(hmac) && size <= key.Length
    modifies key
    ensures status.InvalidParameter? <==>
      |prk| != DIGEST || size == 0 || size > MAX_BLOCKS * DIGEST || |info| > MAX_INFO
    ensures status.Success? <==>
      !status.InvalidParameter? && forall i: nat :: 0 < i && DIGEST * (i - 1) < size ==> works(i)
    ensures status.InvalidParameter? ==> key[..] == old(key[..])
    ensures status.Success? ==> key[..size] == Expanded(hmac, prk, info, size)
    ensures key[size..] == old(key[size..])
  {
    if |prk| != DIGEST || size == 0 || size > MAX_BLOCKS * DIGEST || |info| > MAX_INFO { return InvalidParameter; }
    var numBlocks := BlockCount(size);
    var previous: seq<Byte>, counter: Byte, offset := [], 1, 0;
    while counter <= numBlocks
      invariant 1 <= counter <= numBlocks <= MAX_BLOCKS && offset == DIGEST * (counter as int - 1) < size
      invariant previous == T(hmac, prk, info, counter as int - 1)
      invariant key[..offset] == Blocks(hmac, prk, info, counter as int - 1)
      invariant key[size..] == old(key[size..])
      invariant forall i: nat :: 0 < i < counter as int ==> works(i)
      decreases size - offset
    {
      var message := (if counter > 1 then previous else []) + info + [counter];
      var ok, current := HmacAll(hmac, works(counter as int), prk, message);
      if !ok { return DeviceError; }
      BlocksLength(hmac, prk, info, counter);
      var count := if DIGEST < size - offset then DIGEST else size - offset;
      ghost var before := key[..];
      Copy(key, offset, current, count);
      assert key[..offset + count] == before[..offset] + current[..count];
      assert key[size..] == before[size..];
      offset := offset + count;
      previous := current;
      if offset >= size { break; }
      // The output is full before the counter can wrap around.
      assert counter < 255;
      counter := ((counter as int + 1) % 256) as Byte;
    }
    assert counter == numBlocks;
    return Success;
  }
}
