/** The gather and scatter copies of drivers/drv_eth.c between chains of packet
    buffers (pbufs) and the rings of DMA descriptors. */
module EthCopy {
  import opened Chains

  type byte = bv8

  const BUF_SIZE: nat := 1524   // ETH_TX_BUF_SIZE and ETH_RX_BUF_SIZE

  /** The descriptor i places after `first` in a ring of n, round and round. */
  function At(first: nat, i: nat, n: nat): (d: nat)
    requires first < n
    ensures d < n
    decreases i
  {
    if i >= n then At(first, i - n, n)
    else if first + i < n then first + i
    else first + i - n
  }

  /** Descriptor d is one of the `count` descriptors from `first` on. */
  predicate InFrame(first: nat, count: nat, d: nat, n: nat)
    requires first < n
  {
    exists i :: 0 <= i < count && At(first, i, n) == d
  }

  lemma InFrameGrows(first: nat, count: nat, d: nat, n: nat)
    requires first < n
    ensures InFrame(first, count + 1, d, n) <==> InFrame(first, count, d, n) || d == At(first, count, n)
  {
    hide At;
    if InFrame(first, count + 1, d, n) {
      var i :| 0 <= i < count + 1 && At(first, i, n) == d;
      assert i < count ==> InFrame(first, count, d, n);
    }
    assert d == At(first, count, n) ==> InFrame(first, count + 1, d, n);
  }

  /** Buffer2NextDescAddr: descriptors are chained in a ring. */
  function NextDesc(d: nat, n: nat): (e: nat)
    requires d < n
    ensures e < n
  {
    if d + 1 == n then 0 else d + 1
  }

  /** The first len bytes that the buffers from descriptor `first` on hold. */
  function Wire(mem: array2<byte>, first: nat, len: nat): (w: seq<byte>)
    requires mem.Length1 == BUF_SIZE && first < mem.Length0 && len <= mem.Length0 * BUF_SIZE
    reads mem
    ensures |w| == len
    ensures forall p :: 0 <= p < len ==> w[p] == mem[At(first, p / BUF_SIZE, mem.Length0), p % BUF_SIZE]
  {
    seq(len, p requires 0 <= p < len reads mem => mem[At(first, p / BUF_SIZE, mem.Length0), p % BUF_SIZE])
  }

  /** Where byte p of a frame lies once k buffers are full and `off` bytes of
      the next are used. */
  lemma CellIs(k: nat, off: nat, p: nat)
    requires k * BUF_SIZE + off <= p < (k + 1) * BUF_SIZE
    ensures p / BUF_SIZE == k && p % BUF_SIZE == p - k * BUF_SIZE
  {
  }

  lemma AtInjective(first: nat, i: nat, k: nat, n: nat)
    requires first < n && i < k < n
    ensures At(first, i, n) != At(first, k, n)
  {
  }

  /** All but the last buffer are full; nothing is sent of an empty frame. */
  function BufferSizes(len: nat): (sizes: seq<nat>)
    decreases len
  {
    if len <= BUF_SIZE then [len] else [BUF_SIZE] + BufferSizes(len - BUF_SIZE)
  }

  function Total(sizes: seq<nat>): nat
    decreases |sizes|
  {
    if sizes == [] then 0 else sizes[0] + Total(sizes[1..])
  }

  /** The sizes handed to the DMA add up to the frame, and every buffer but the
      last is full. */
  lemma {:induction false} BufferSizesCover(len: nat)
    ensures var s := BufferSizes(len);
            Total(s) == len && 0 < |s| && (len > 0 ==> 0 < s[|s| - 1] <= 1524)
            && forall i :: 0 <= i < |s| - 1 ==> s[i] == 1524
    decreases len
  {
    if len > BUF_SIZE {
      BufferSizesCover(len - BUF_SIZE);
      assert BufferSizes(len)[1..] == BufferSizes(len - BUF_SIZE);
    } else {
      assert [len][1..] == [];
    }
  }

  lemma BufferCount(len: nat, count: nat)
    requires len > 0
    requires count == if len <= BUF_SIZE then 1 else if len % BUF_SIZE != 0 then len / BUF_SIZE + 1 else len / BUF_SIZE
    ensures (count - 1) * BUF_SIZE < len <= count * BUF_SIZE
  {
  }

  lemma {:induction false} BufferSizesAre(len: nat, count: nat, sizes: seq<nat>)
    requires count > 0 && (count - 1) * BUF_SIZE < len <= count * BUF_SIZE && |sizes| == count
    requires forall j :: 0 <= j < count ==> sizes[j] == if j < count - 1 then BUF_SIZE else len - j * BUF_SIZE
    ensures sizes == BufferSizes(len)
    decreases count
  {
    if count > 1 {
      BufferSizesAre(len - BUF_SIZE, count - 1, sizes[1..]);
      assert sizes == [sizes[0]] + sizes[1..];
    }
  }

  datatype TxStatus = ErrOk | ErrUse

  class EthTx {
    const mem: array2<byte>   // Tx_Buff, one row per descriptor
    const own: array<bool>    // ETH_DMATXDESC_OWN of each descriptor
    var txDesc: nat           // EthHandle.TxDesc

    ghost predicate Valid()
      reads this
    {
      own.Length > 0 && mem.Length0 == own.Length && mem.Length1 == BUF_SIZE && txDesc < own.Length
    }

    constructor (n: nat)
      requires n > 0
      ensures Valid() && fresh(mem) && fresh(own) && own.Length == n
      ensures forall d :: 0 <= d < n ==> !own[d]
    {
      mem := new byte[n, BUF_SIZE];
      own := new bool[n](_ => false);
      txDesc := 0;
    }

    /** SMEMCPY into one buffer. */
    method CopyBytes(d: nat, bufferOffset: nat, piece: seq<byte>)
      requires Valid() && d < own.Length && bufferOffset + |piece| <= BUF_SIZE
      modifies mem
      ensures forall e, j :: 0 <= e < own.Length && 0 <= j < BUF_SIZE && !(e == d && bufferOffset <= j < bufferOffset + |piece|) ==>
                mem[e, j] == old(mem[e, j])
      ensures forall j :: 0 <= j < |piece| ==> mem[d, bufferOffset + j] == piece[j]
    {
      forall j | 0 <= j < |piece| {
        mem[d, bufferOffset + j] := piece[j];
      }
    }

    /** SMEMCPY of one piece to bufferOffset of descriptor d: when d is the k-th
        of the frame, the frame bytes gathered so far grow by the piece. */
    method CopyIn(d: nat, bufferOffset: nat, piece: seq<byte>, ghost first: nat, ghost k: nat)
      requires Valid() && d < own.Length && bufferOffset + |piece| <= BUF_SIZE && first < own.Length
      modifies mem
      ensures forall e, j :: 0 <= e < own.Length && 0 <= j < BUF_SIZE && e != d ==> mem[e, j] == old(mem[e, j])
      ensures k < own.Length && d == At(first, k, own.Length) ==>
                var len := k * BUF_SIZE + bufferOffset;
                Wire(mem, first, len + |piece|) == old(Wire(mem, first, len)) + piece
    {
      hide At;
      ghost var n, len := own.Length, k * BUF_SIZE + bufferOffset;
      CopyBytes(d, bufferOffset, piece);
      if k < own.Length && d == At(first, k, own.Length) {
        forall p | 0 <= p < len
          ensures At(first, p / BUF_SIZE, n) != d || p % BUF_SIZE < bufferOffset
        {
          if p < k * BUF_SIZE { AtInjective(first, p / BUF_SIZE, k, n); } else { CellIs(k, 0, p); }
        }
        forall j | 0 <= j < |piece|
          ensures Wire(mem, first, len + |piece|)[len + j] == piece[j]
        {
          CellIs(k, bufferOffset, len + j);
        }
      }
    }

    /** Every descriptor the frame needs is the CPU's. */
    ghost predicate Free(len: nat)
      reads this, own
      requires Valid()
    {
      forall i :: 0 <= i < own.Length && (i == 0 || i * BUF_SIZE < len) ==> !own[At(txDesc, i, own.Length)]
    }

    /** frameLength bytes of flat are in place; the copy stands at bufferOffset
        of descriptor d, the k-th of the frame. */
    ghost predicate Gathered(flat: seq<byte>, d: nat, bufferOffset: nat, frameLength: nat, k: nat)
      reads this, mem, own
      requires Valid()
    {
      && k < own.Length && d == At(txDesc, k, own.Length) && (k == 0 || k * BUF_SIZE < |flat|)
      && frameLength == k * BUF_SIZE + bufferOffset <= |flat| <= own.Length * BUF_SIZE
      && Wire(mem, txDesc, frameLength) == flat[..frameLength]
    }

    ghost predicate FreeUpTo(k: nat)
      reads this, own
      requires Valid()
    {
      k < own.Length && forall i :: 0 <= i <= k ==> !own[At(txDesc, i, own.Length)]
    }

    /** Buffers that the DMA owns are as they were. */
    twostate predicate OwnedUntouched()
      reads this, mem, own
      requires old(Valid()) && Valid()
    {
      forall e, j :: 0 <= e < own.Length && 0 <= j < BUF_SIZE && own[e] ==> mem[e, j] == old(mem[e, j])
    }

    /** SMEMCPY of the piece that continues flat. */
    method CopyPiece(ghost flat: seq<byte>, d: nat, bufferOffset: nat, piece: seq<byte>, frameLength: nat, ghost k: nat)
      requires Valid() && d < own.Length && bufferOffset + |piece| <= BUF_SIZE && !own[d]
      modifies mem
      ensures OwnedUntouched()
      ensures old(Gathered(flat, d, bufferOffset, frameLength, k)) && frameLength + |piece| <= |flat|
              && flat[..frameLength] + piece == flat[..frameLength + |piece|] ==>
                Gathered(flat, d, bufferOffset + |piece|, frameLength + |piece|, k)
    {
      hide At, Wire;
      CopyIn(d, bufferOffset, piece, txDesc, k);
    }

    /** From a full buffer to the next one, when more is to come. */
    lemma Advance(flat: seq<byte>, d: nat, frameLength: nat, k: nat)
      requires Valid() && Gathered(flat, d, BUF_SIZE, frameLength, k) && frameLength < |flat| && d < own.Length
      ensures Gathered(flat, NextDesc(d, own.Length), 0, frameLength, k + 1)
      ensures k + 1 < own.Length && FreeUpTo(k) && !own[NextDesc(d, own.Length)] ==> FreeUpTo(k + 1)
    {
      AtNext(txDesc, k, own.Length);
      hide At, Wire;
    }

    /** The copy loop for one pbuf, the qi-th of the chain. */
    method CopyPbuf(ghost chain: seq<seq<byte>>, ghost qi: nat, q: seq<byte>, d0: nat, offset0: nat, length0: nat, ghost k0: nat)
      returns (ok: bool, d: nat, bufferOffset: nat, frameLength: nat, ghost k: nat)
      requires Valid() && d0 < own.Length && offset0 <= BUF_SIZE && !own[d0]
      requires qi < |chain| && q == chain[qi]
      modifies mem
      ensures OwnedUntouched()
      ensures d < own.Length && bufferOffset <= BUF_SIZE
      ensures old(Gathered(Flatten(chain), d0, offset0, length0, k0) && length0 == |Flatten(chain[..qi])| && FreeUpTo(k0)) ==>
                && k < own.Length
                && (if ok then Gathered(Flatten(chain), d, bufferOffset, frameLength, k) && FreeUpTo(k)
                                && frameLength == |Flatten(chain[..qi])| + |q|
                    else k * BUF_SIZE < |Flatten(chain)| && own[At(txDesc, k, own.Length)])
      ensures (forall e :: 0 <= e < own.Length ==> !own[e]) ==> ok
      ensures ok ==> frameLength == length0 + |q|
    {
      hide At, Wire, Gathered, FreeUpTo, Flatten;
      ghost var flat := Flatten(chain);
      ghost var good := Gathered(flat, d0, offset0, length0, k0) && length0 == |Flatten(chain[..qi])| && FreeUpTo(k0);
      d, bufferOffset, frameLength, k := d0, offset0, length0, k0;
      var bytesLeft: nat := |q|;
      var payloadOffset: nat := 0;
      if good { GatheredIndex(flat, d, bufferOffset, frameLength, k); }
      while bytesLeft + bufferOffset > BUF_SIZE
        invariant payloadOffset + bytesLeft == |q|
        invariant d < own.Length && bufferOffset <= BUF_SIZE && !own[d]
        invariant OwnedUntouched()
        invariant frameLength == length0 + payloadOffset
        invariant good ==> k < own.Length && Gathered(flat, d, bufferOffset, frameLength, k) && FreeUpTo(k)
        invariant good ==> frameLength == |Flatten(chain[..qi])| + payloadOffset
        decreases bytesLeft, bufferOffset
      {
        var size := BUF_SIZE - bufferOffset;
        PieceOfFlat(chain, qi, payloadOffset, size);
        PieceOfFlat(chain, qi, payloadOffset, bytesLeft);
        CopyPiece(flat, d, bufferOffset, q[payloadOffset..payloadOffset + size], frameLength, k);
        bytesLeft := bytesLeft - size;
        payloadOffset := payloadOffset + size;
        frameLength := frameLength + size;
        bufferOffset := 0;
        if good {
          Advance(flat, d, frameLength, k);
          GatheredIndex(flat, NextDesc(d, own.Length), 0, frameLength, k + 1);
        }
        d := NextDesc(d, own.Length);
        k := k + 1;
        if own[d] {
          ok := false;
          return;
        }
      }
      PieceOfFlat(chain, qi, payloadOffset, bytesLeft);
      CopyPiece(flat, d, bufferOffset, q[payloadOffset..payloadOffset + bytesLeft], frameLength, k);
      bufferOffset := bufferOffset + bytesLeft;
      frameLength := frameLength + bytesLeft;
      ok := true;
    }

    lemma GatheredIndex(flat: seq<byte>, d: nat, bufferOffset: nat, frameLength: nat, k: nat)
      requires Valid() && Gathered(flat, d, bufferOffset, frameLength, k)
      ensures k < own.Length && d == At(txDesc, k, own.Length) && (k == 0 || k * BUF_SIZE < |flat|)
      ensures frameLength <= |flat|
    {
    }

    /** The copy loops of rt_stm32_eth_tx. */
    method Gather(chain: seq<seq<byte>>) returns (ret: TxStatus, frameLength: nat)
      requires Valid()
      modifies mem
      // a buffer that the DMA owns is never written
      ensures OwnedUntouched()
      // a chain that fits is gathered in order, and is refused iff a needed buffer is not free
      ensures |Flatten(chain)| <= own.Length * BUF_SIZE && chain != [] ==>
                (ret == ErrOk <==> Free(|Flatten(chain)|))
      ensures ret == ErrOk ==> frameLength == |Flatten(chain)| && (chain != [] ==> !own[txDesc])
      ensures |Flatten(chain)| <= own.Length * BUF_SIZE && ret == ErrOk ==>
                Wire(mem, txDesc, frameLength) == Flatten(chain)
      // a chain that does not fit a free ring is not noticed
      ensures (forall e :: 0 <= e < own.Length ==> !own[e]) ==> ret == ErrOk
    {
      hide At, Wire;
      ghost var flat := Flatten(chain);
      ghost var fits := |flat| <= own.Length * BUF_SIZE;
      ghost var k: nat := 0;
      var d: nat := txDesc;
      var bufferOffset: nat := 0;
      frameLength := 0;
      AtZero(txDesc, own.Length);
      EmptyWire(mem, txDesc);
      assert chain[..0] == [];
      for qi := 0 to |chain|
        invariant d < own.Length && bufferOffset <= BUF_SIZE
        invariant OwnedUntouched()
        invariant frameLength == |Flatten(chain[..qi])| && (if qi > 0 then !own[txDesc] else d == txDesc)
        invariant fits ==> Gathered(flat, d, bufferOffset, frameLength, k)
        invariant fits ==> if qi > 0 then FreeUpTo(k) else k == 0
      {
        if own[d] {
          ret := ErrUse;
          return;
        }
        var ok;
        FlattenTake(chain, qi);
        ok, d, bufferOffset, frameLength, k := CopyPbuf(chain, qi, chain[qi], d, bufferOffset, frameLength, k);
        if !ok {
          ret := ErrUse;
          return;
        }
      }
      assert chain[..|chain|] == chain;
      ret := ErrOk;
    }

    /** HAL_ETH_TransmitFrame: hands the needed descriptors to the DMA with the
        number of bytes in each, round the ring again if there are too few; a
        frame of no bytes, or a first descriptor that is not free, is refused. */
    method HalTransmitFrame(frameLength: nat) returns (ok: bool, sizes: seq<nat>)
      requires Valid()
      modifies `txDesc, own
      ensures Valid() && (ok <==> frameLength > 0 && !old(own[txDesc]))
      ensures !ok ==> own[..] == old(own[..]) && txDesc == old(txDesc)
      ensures ok ==> sizes == BufferSizes(frameLength)
      ensures ok ==> txDesc == At(old(txDesc), |sizes|, own.Length)
      ensures ok ==> forall d :: 0 <= d < own.Length ==>
                (own[d] <==> old(own[d]) || InFrame(old(txDesc), |sizes|, d, own.Length))
    {
      hide BufferSizes, InFrame, At;
      if frameLength == 0 || own[txDesc] {
        return false, [];
      }
      var bufCount := if frameLength <= BUF_SIZE then 1
                      else if frameLength % BUF_SIZE != 0 then frameLength / BUF_SIZE + 1
                      else frameLength / BUF_SIZE;
      sizes := [];
      ghost var first := txDesc;
      AtZero(first, own.Length);
      InFrameNone(first, own.Length);
      BufferCount(frameLength, bufCount);
      for i := 0 to bufCount
        invariant txDesc < own.Length && |sizes| == i && txDesc == At(first, i, own.Length)
        invariant forall j :: 0 <= j < i ==> sizes[j] == if j < bufCount - 1 then BUF_SIZE else frameLength - j * BUF_SIZE
        invariant forall d :: 0 <= d < own.Length ==> (own[d] <==> old(own[d]) || InFrame(first, i, d, own.Length))
      {
        forall d | 0 <= d < own.Length
          ensures InFrame(first, i + 1, d, own.Length) <==> InFrame(first, i, d, own.Length) || d == txDesc
        {
          InFrameGrows(first, i, d, own.Length);
        }
        sizes := sizes + [if i < bufCount - 1 then BUF_SIZE else frameLength - (bufCount - 1) * BUF_SIZE];
        own[txDesc] := true;
        txDesc := NextDesc(txDesc, own.Length);
        AtNext(first, i, own.Length);
      }
      BufferSizesAre(frameLength, bufCount, sizes);
      ok := true;
    }

    /** rt_stm32_eth_tx */
    method Transmit(chain: seq<seq<byte>>) returns (ret: TxStatus, sizes: seq<nat>)
      requires Valid()
      modifies this, mem, own
      ensures Valid() && (ret == ErrOk && |Flatten(chain)| <= own.Length * BUF_SIZE ==>
                Wire(mem, old(txDesc), |Flatten(chain)|) == Flatten(chain))
      ensures |Flatten(chain)| <= own.Length * BUF_SIZE && chain != [] ==>
                (ret == ErrOk <==> old(Free(|Flatten(chain)|)))
      // a chain with bytes is handed to the DMA whole, whether or not it fits
      ensures ret == ErrOk && |Flatten(chain)| > 0 ==>
                && sizes == BufferSizes(|Flatten(chain)|)
                && txDesc == At(old(txDesc), |sizes|, own.Length)
                && forall d :: 0 <= d < own.Length ==>
                     (own[d] <==> old(own[d]) || InFrame(old(txDesc), |sizes|, d, own.Length))
      // a refused or empty chain leaves the ring as it was
      ensures ret == ErrUse || |Flatten(chain)| == 0 ==> own[..] == old(own[..]) && txDesc == old(txDesc)
      ensures forall e, j :: 0 <= e < own.Length && 0 <= j < BUF_SIZE && old(own[e]) ==> mem[e, j] == old(mem[e, j])
    {
      hide Wire, At, BufferSizes, InFrame;
      var frameLength;
      sizes := [];
      ret, frameLength := Gather(chain);
      if ret == ErrOk {
        AtZero(txDesc, own.Length);
        var ok;
        ok, sizes := HalTransmitFrame(frameLength);
      }
    }
  }

  lemma InFrameNone(first: nat, n: nat)
    requires first < n
    ensures forall d :: !InFrame(first, 0, d, n)
  {
  }

  lemma AtZero(first: nat, n: nat)
    requires first < n
    ensures At(first, 0, n) == first
  {
  }

  lemma {:induction false} AtNext(first: nat, k: nat, n: nat)
    requires first < n
    ensures At(first, k + 1, n) == NextDesc(At(first, k, n), n)
    decreases k
  {
    if k >= n {
      AtNext(first, k - n, n);
    } else if k + 1 == n {
      AtZero(first, n);
    }
  }

  lemma {:induction false} BufferSizesCount(len: nat)
    requires len > 0
    ensures var count := |BufferSizes(len)|; count > 0 && (count - 1) * BUF_SIZE < len <= count * BUF_SIZE
    decreases len
  {
    if len > BUF_SIZE { BufferSizesCount(len - BUF_SIZE); }
  }

  /** No descriptor is used twice for a frame iff the frame fits the ring. */
  lemma DistinctIffFits(first: nat, len: nat, n: nat)
    requires first < n && len > 0
    ensures (forall i, k :: 0 <= i < k < |BufferSizes(len)| ==> At(first, i, n) != At(first, k, n))
       <==> len <= n * BUF_SIZE
  {
    hide BufferSizes;
    var count := |BufferSizes(len)|;
    BufferSizesCount(len);
    if count <= n {
      forall i: nat, k: nat | i < k < count
        ensures At(first, i, n) != At(first, k, n)
      {
        AtInjective(first, i, k, n);
      }
    } else {
      assert At(first, n, n) == At(first, 0, n);
      assert len > n * BUF_SIZE;
    }
  }

  /** A frame too long for the ring gives every descriptor to the DMA. */
  lemma OverlongTakesAll(first: nat, count: nat, d: nat, n: nat)
    requires first < n <= count && d < n
    ensures InFrame(first, count, d, n)
  {
    var i := if d >= first then d - first else d + n - first;
    assert At(first, i, n) == d;
  }

  lemma EmptyWire(mem: array2<byte>, first: nat)
    requires mem.Length1 == BUF_SIZE && first < mem.Length0
    ensures Wire(mem, first, 0) == []
  {
  }

  /** A piece of one pbuf continues the flattened chain where it stood. */
  lemma PieceOfFlat(chain: seq<seq<byte>>, qi: nat, offset: nat, size: nat)
    requires qi < |chain| && offset + size <= |chain[qi]|
    ensures var at := |Flatten(chain[..qi])| + offset;
            at + size <= |Flatten(chain)|
            && Flatten(chain)[..at] + chain[qi][offset..offset + size] == Flatten(chain)[..at + size]
  {
    FlattenTake(chain, qi);
    hide Flatten;
    var a, q, flat := Flatten(chain[..qi]), chain[qi], Flatten(chain);
    assert (a + q)[..|a| + offset] == a + q[..offset];
    assert flat[..|a| + offset + size] == (a + q)[..|a| + offset + size];
    assert flat[..|a| + offset] == (a + q)[..|a| + offset];
  }

  // --- Receive -------------------------------------------------------------------

  function Sum(lens: seq<nat>): nat
    decreases |lens|
  {
    if lens == [] then 0 else Sum(lens[..|lens| - 1]) + lens[|lens| - 1]
  }

  lemma {:induction false} SumPrefix(lens: seq<nat>, k: nat)
    requires k < |lens|
    ensures Sum(lens[..k + 1]) == Sum(lens[..k]) + lens[k]
    ensures Sum(lens[..k + 1]) <= Sum(lens)
    decreases |lens|
  {
    assert lens[..k + 1][..k] == lens[..k];
    if k + 1 < |lens| {
      SumPrefix(lens[..|lens| - 1], k);
      assert lens[..|lens| - 1][..k + 1] == lens[..k + 1];
      assert lens[..|lens| - 1][..k] == lens[..k];
    } else {
      assert lens[..k + 1] == lens;
    }
  }

  /** The bytes of one buffer continue the frame. */
  lemma WireContinues(mem: array2<byte>, first: nat, len: nat, d: nat, offset: nat, k: nat, size: nat)
    requires mem.Length1 == BUF_SIZE && first < mem.Length0 && len <= mem.Length0 * BUF_SIZE
    requires k < mem.Length0 && d == At(first, k, mem.Length0) && offset + size <= BUF_SIZE
    requires k * BUF_SIZE + offset + size <= len
    ensures var at := k * BUF_SIZE + offset;
            Wire(mem, first, len)[..at] + Row(mem, d, offset, size) == Wire(mem, first, len)[..at + size]
  {
    hide At;
    var at := k * BUF_SIZE + offset;
    forall j | 0 <= j < size
      ensures Wire(mem, first, len)[at + j] == Row(mem, d, offset, size)[j]
    {
      CellIs(k, offset, at + j);
    }
  }

  /** size bytes of buffer d from offset on. */
  function Row(mem: array2<byte>, d: nat, offset: nat, size: nat): (r: seq<byte>)
    requires mem.Length1 == BUF_SIZE && d < mem.Length0 && offset + size <= BUF_SIZE
    reads mem
    ensures |r| == size && forall j :: 0 <= j < size ==> r[j] == mem[d, offset + j]
  {
    seq(size, j requires 0 <= j < size reads mem => mem[d, offset + j])
  }

  class EthRx {
    const mem: array2<byte>   // Rx_Buff, one row per descriptor
    const own: array<bool>    // ETH_DMARXDESC_OWN of each descriptor

    ghost predicate Valid()
      reads this
    {
      own.Length > 0 && mem.Length0 == own.Length && mem.Length1 == BUF_SIZE
    }

    constructor (n: nat)
      requires n > 0
      ensures Valid() && fresh(mem) && fresh(own) && own.Length == n
    {
      mem := new byte[n, BUF_SIZE];
      own := new bool[n](_ => true);
    }

    /** The copy loop for one pbuf of length qLen. */
    method FillPbuf(qLen: nat, d0: nat, offset0: nat, ghost first: nat, ghost len: nat, ghost k0: nat)
      returns (payload: seq<byte>, d: nat, bufferOffset: nat, ghost k: nat)
      requires Valid() && first < own.Length && len <= own.Length * BUF_SIZE
      requires k0 < own.Length && d0 == At(first, k0, own.Length) && offset0 <= BUF_SIZE
      requires k0 * BUF_SIZE + offset0 + qLen <= len
      ensures k < own.Length && d == At(first, k, own.Length) && bufferOffset <= BUF_SIZE
      ensures |payload| == qLen && k * BUF_SIZE + bufferOffset == k0 * BUF_SIZE + offset0 + qLen
      ensures var at := k0 * BUF_SIZE + offset0;
              Wire(mem, first, len)[..at] + payload == Wire(mem, first, len)[..at + qLen]
    {
      hide At, Wire;
      d, bufferOffset, k := d0, offset0, k0;
      payload := [];
      var bytesLeft: nat := qLen;
      ghost var at := k0 * BUF_SIZE + offset0;
      ghost var wire := Wire(mem, first, len);
      assert |wire| == len by { WireLength(mem, first, len); }
      while bytesLeft + bufferOffset > BUF_SIZE
        invariant |payload| + bytesLeft == qLen
        invariant k < own.Length && d == At(first, k, own.Length) && bufferOffset <= BUF_SIZE
        invariant k * BUF_SIZE + bufferOffset == at + |payload|
        invariant wire[..at] + payload == wire[..at + |payload|]
        decreases bytesLeft, bufferOffset
      {
        var size := BUF_SIZE - bufferOffset;
        WireContinues(mem, first, len, d, bufferOffset, k, size);
        payload := payload + Row(mem, d, bufferOffset, size);
        AtNext(first, k, own.Length);
        d := NextDesc(d, own.Length);
        k := k + 1;
        bytesLeft := bytesLeft - size;
        bufferOffset := 0;
      }
      WireContinues(mem, first, len, d, bufferOffset, k, bytesLeft);
      payload := payload + Row(mem, d, bufferOffset, bytesLeft);
      bufferOffset := bufferOffset + bytesLeft;
    }

    /** The copy loops of rt_stm32_eth_rx: the frame from descriptor fsRxDesc on
        is spread over a chain of pbufs of the given lengths. */
    method Scatter(fsRxDesc: nat, lens: seq<nat>) returns (payloads: seq<seq<byte>>)
      requires Valid() && fsRxDesc < own.Length
      requires Sum(lens) <= own.Length * BUF_SIZE
      ensures |payloads| == |lens| && forall i :: 0 <= i < |lens| ==> |payloads[i]| == lens[i]
      ensures Flatten(payloads) == Wire(mem, fsRxDesc, Sum(lens))
    {
      hide At, Wire, Flatten, Sum;
      var d, bufferOffset: nat := fsRxDesc, 0;
      ghost var k: nat := 0;
      ghost var len := Sum(lens);
      ghost var wire := Wire(mem, fsRxDesc, len);
      WireLength(mem, fsRxDesc, len);
      AtZero(fsRxDesc, own.Length);
      NothingYet(lens);
      payloads := [];
      for qi := 0 to |lens|
        invariant |payloads| == qi && forall i :: 0 <= i < qi ==> |payloads[i]| == lens[i]
        invariant k < own.Length && d == At(fsRxDesc, k, own.Length) && bufferOffset <= BUF_SIZE
        invariant k * BUF_SIZE + bufferOffset == Sum(lens[..qi]) <= len
        invariant Flatten(payloads) == wire[..Sum(lens[..qi])]
      {
        SumPrefix(lens, qi);
        var payload;
        payload, d, bufferOffset, k := FillPbuf(lens[qi], d, bufferOffset, fsRxDesc, len, k);
        FlattenSnoc(payloads, payload);
        payloads := payloads + [payload];
      }
      assert lens[..|lens|] == lens;
    }

    /** rt_stm32_eth_rx: the frame is copied if a chain can be allocated for it, and
        its descriptors are released in any case. */
    method Receive(fsRxDesc: nat, segCount: nat, lens: seq<nat>, gotChain: bool) returns (payloads: seq<seq<byte>>)
      requires Valid() && fsRxDesc < own.Length && segCount <= own.Length
      requires Sum(lens) <= own.Length * BUF_SIZE
      modifies own
      ensures !gotChain ==> payloads == []
      ensures gotChain ==> |payloads| == |lens| && forall i :: 0 <= i < |lens| ==> |payloads[i]| == lens[i]
      ensures gotChain ==> Flatten(payloads) == Wire(mem, fsRxDesc, Sum(lens))
      ensures forall d :: 0 <= d < own.Length ==>
                (own[d] <==> old(own[d]) || InFrame(fsRxDesc, segCount, d, own.Length))
    {
      hide At, Wire, Flatten, Sum, InFrame;
      payloads := [];
      if gotChain {
        payloads := Scatter(fsRxDesc, lens);
      }
      Release(fsRxDesc, segCount);
    }

    /** Gives the descriptors of the frame back to the DMA. */
    method Release(fsRxDesc: nat, segCount: nat)
      requires Valid() && fsRxDesc < own.Length && segCount <= own.Length
      modifies own
      ensures forall d :: 0 <= d < own.Length ==>
                (own[d] <==> old(own[d]) || InFrame(fsRxDesc, segCount, d, own.Length))
    {
      hide At, InFrame;
      var d: nat := fsRxDesc;
      AtZero(fsRxDesc, own.Length);
      InFrameNone(fsRxDesc, own.Length);
      for i := 0 to segCount
        invariant d < own.Length && d == At(fsRxDesc, i, own.Length)
        invariant forall e :: 0 <= e < own.Length ==> (own[e] <==> old(own[e]) || InFrame(fsRxDesc, i, e, own.Length))
      {
        forall e | 0 <= e < own.Length
          ensures InFrame(fsRxDesc, i + 1, e, own.Length) <==> InFrame(fsRxDesc, i, e, own.Length) || e == d
        {
          InFrameGrows(fsRxDesc, i, e, own.Length);
        }
        own[d] := true;
        d := NextDesc(d, own.Length);
        AtNext(fsRxDesc, i, own.Length);
      }
    }
  }

  lemma NothingYet(lens: seq<nat>)
    ensures Sum(lens[..0]) == 0 && Flatten([]) == []
  {
  }

  lemma WireLength(mem: array2<byte>, first: nat, len: nat)
    requires mem.Length1 == BUF_SIZE && first < mem.Length0 && len <= mem.Length0 * BUF_SIZE
    ensures |Wire(mem, first, len)| == len
  {
  }

  /** Sending a chain and receiving the frame into any chain of the same total
      length, over rings of any size that hold it, gives the bytes back. */
  method SendAndReceive(tx: EthTx, rx: EthRx, chain: seq<seq<byte>>, lens: seq<nat>, fsRxDesc: nat, segCount: nat)
    returns (ok: bool, payloads: seq<seq<byte>>)
    requires tx.Valid() && rx.Valid() && fsRxDesc < rx.own.Length && segCount <= rx.own.Length
    requires tx.mem != rx.mem && tx.own != rx.own
    requires Sum(lens) == |Flatten(chain)| && chain != []
    requires Sum(lens) <= tx.own.Length * BUF_SIZE && Sum(lens) <= rx.own.Length * BUF_SIZE
    modifies tx, tx.mem, tx.own, rx.mem, rx.own
    ensures ok <==> old(tx.Free(|Flatten(chain)|))
    ensures ok ==> Flatten(payloads) == Flatten(chain) && |payloads| == |lens|
    ensures ok ==> forall i :: 0 <= i < |lens| ==> |payloads[i]| == lens[i]
  {
    hide At, Wire, Flatten, Sum;
    var first := tx.txDesc;
    var ret, sizes := tx.Transmit(chain);
    ok, payloads := ret == ErrOk, [];
    if ok {
      Carry(tx, first, rx, fsRxDesc, Sum(lens));
      payloads := rx.Receive(fsRxDesc, segCount, lens, true);
    }
  }

  lemma CellsDistinct(first: nat, q: nat, p: nat, n: nat)
    requires first < n && q < p < n * BUF_SIZE
    ensures At(first, q / BUF_SIZE, n) != At(first, p / BUF_SIZE, n) || q % BUF_SIZE != p % BUF_SIZE
  {
    if q / BUF_SIZE < p / BUF_SIZE { AtInjective(first, q / BUF_SIZE, p / BUF_SIZE, n); }
  }

  /** The wire: the bytes that left one ring arrive in the other. */
  method Carry(tx: EthTx, first: nat, rx: EthRx, fsRxDesc: nat, len: nat)
    requires tx.Valid() && rx.Valid() && first < tx.own.Length && fsRxDesc < rx.own.Length && tx.mem != rx.mem
    requires len <= tx.own.Length * BUF_SIZE && len <= rx.own.Length * BUF_SIZE
    modifies rx.mem
    ensures Wire(rx.mem, fsRxDesc, len) == Wire(tx.mem, first, len)
  {
    var n, m := tx.own.Length, rx.own.Length;
    for p := 0 to len
      invariant forall q :: 0 <= q < p ==>
                  rx.mem[At(fsRxDesc, q / BUF_SIZE, m), q % BUF_SIZE] == tx.mem[At(first, q / BUF_SIZE, n), q % BUF_SIZE]
    {
      hide At;
      rx.mem[At(fsRxDesc, p / BUF_SIZE, m), p % BUF_SIZE] := tx.mem[At(first, p / BUF_SIZE, n), p % BUF_SIZE];
      forall q | 0 <= q < p
        ensures At(fsRxDesc, q / BUF_SIZE, m) != At(fsRxDesc, p / BUF_SIZE, m) || q % BUF_SIZE != p % BUF_SIZE
      {
        CellsDistinct(fsRxDesc, q, p, m);
      }
    }
  }
}
