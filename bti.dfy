// The bus transaction initiator (bus_transaction_initiator_dispatcher.cpp):
// the list of pinned memory objects of one bus transaction id. Pin appends a
// PMO, Unpin removes the first one whose extents are exactly the ones given,
// and the last handle going away empties the list for good.
module BusTxnInitiator {
  import opened Zx
  import opened IommuIface
  import opened PinnedMemory

  /** The index of the first extent list equal to `ext`, or |views| when
      there is none. */
  function FirstMatch(views: seq<seq<Extent>>, ext: seq<Extent>): (k: nat)
    ensures k <= |views|
    ensures k < |views| <==> ext in views
    ensures k < |views| ==> views[k] == ext
    ensures forall j :: 0 <= j < k ==> views[j] != ext
  {
    if views == [] then 0
    else if views[0] == ext then 0
    else 1 + FirstMatch(views[1..], ext)
  }

  /** The list with its k-th element erased. */
  function RemoveAt<T>(s: seq<T>, k: nat): (r: seq<T>)
    requires k < |s|
    ensures |r| == |s| - 1
    ensures forall j :: 0 <= j < k ==> r[j] == s[j]
    ensures forall j :: k <= j < |r| ==> r[j] == s[j + 1]
  {
    s[..k] + s[k + 1..]
  }

  lemma RemoveAtMultiset<T>(s: seq<T>, k: nat)
    requires k < |s|
    ensures multiset(RemoveAt(s, k)) == multiset(s) - multiset{s[k]}
  {
    assert s == s[..k] + [s[k]] + s[k + 1..];
  }

  /** Unpinning the extents a Pin just appended takes the list back to what
      it was before the Pin: exactly, when no earlier PMO had the same
      extents, and up to order otherwise (an earlier PMO with the same
      extents is the one that goes). */
  lemma PinThenUnpin<T>(pmos: seq<T>, views: seq<seq<Extent>>, p: T, e: seq<Extent>)
    requires |pmos| == |views|
    ensures var k := FirstMatch(views + [e], e);
            k <= |views| &&
            (e !in views ==> k == |views| && RemoveAt(pmos + [p], k) == pmos &&
                             RemoveAt(views + [e], k) == views) &&
            multiset(RemoveAt(views + [e], k)) == multiset(views)
  {
    var k := FirstMatch(views + [e], e);
    assert (views + [e])[|views|] == e;
    if e !in views {
      assert (pmos + [p])[..k] == pmos;
      assert (views + [e])[..k] == views;
    }
    RemoveAtMultiset(views + [e], k);
    assert (views + [e])[k] == e;
  }

  /** The extents of each PMO of a list, in order. */
  function ViewsOf(ps: seq<Pmo>): (r: seq<seq<Extent>>)
    reads set p | p in ps, set p | p in ps :: p.extents
    requires forall k :: 0 <= k < |ps| ==> ps[k].extentsLen <= ps[k].extents.Length
    ensures |r| == |ps|
    ensures forall k :: 0 <= k < |ps| ==> r[k] == ps[k].MappedExtents()
  {
    if ps == [] then []
    else ViewsOf(ps[..|ps| - 1]) + [ps[|ps| - 1].MappedExtents()]
  }

  class Bti {
    const io: IommuOps
    const busTxnId: nat
    var pinned: seq<Pmo>
    var zeroHandles: bool

    /** Every PMO is on the list once and keeps its own invariant. */
    ghost predicate Valid()
      reads this, pinned
    {
      (forall i, j :: 0 <= i < j < |pinned| ==> pinned[i] != pinned[j]) &&
      forall k :: 0 <= k < |pinned| ==> pinned[k].Valid()
    }

    /** The extent lists of the pinned PMOs, in list order. */
    function Views(): seq<seq<Extent>>
      reads this, pinned, set p | p in pinned :: p.extents
      requires Valid()
    {
      ViewsOf(pinned)
    }

    constructor(io: IommuOps, busTxnId: nat)
      ensures this.io == io && this.busTxnId == busTxnId
      ensures pinned == [] && !zeroHandles && Valid()
    {
      this.io := io;
      this.busTxnId := busTxnId;
      pinned := [];
      zeroHandles := false;
    }

    /** BusTransactionInitiatorDispatcher::Create: the IOMMU must accept the
        bus transaction id; `allocOk` is whether the object can be allocated. */
    static method Create(io: IommuOps, busTxnId: nat, allocOk: bool) returns (status: Status, bti: Bti?)
      ensures status == Ok <==> io.isValidBusTxnId(busTxnId) && allocOk
      ensures !io.isValidBusTxnId(busTxnId) ==> status == ErrInvalidArgs
      ensures io.isValidBusTxnId(busTxnId) && !allocOk ==> status == ErrNoMemory
      ensures status != Ok ==> bti == null
      ensures status == Ok ==>
                bti != null && fresh(bti) && bti.Valid() && bti.io == io && bti.busTxnId == busTxnId &&
                bti.pinned == [] && !bti.zeroHandles
    {
      if !io.isValidBusTxnId(busTxnId) {
        return ErrInvalidArgs, null;
      }
      if !allocOk {
        return ErrNoMemory, null;
      }
      bti := new Bti(io, busTxnId);
      status := Ok;
    }

    /** The outcome Pin reaches when it gets as far as creating the PMO. */
    function PinOutcome(pages: seq<nat>, size: nat, perms: bv32, pinStatus: Status,
                        arrayAllocOk: bool, pmoAllocOk: bool, bufLen: nat): Status
      requires |pages| > 0
    {
      var m := MapRange(io, busTxnId, pages, size, Contiguous(pages), perms);
      if pinStatus != Ok then pinStatus
      else if !(arrayAllocOk && pmoAllocOk) then ErrNoMemory
      else if m.status != Ok then m.status
      else if bufLen < |m.extents| then ErrBufferTooSmall
      else Ok
    }

    /** Copy a PMO's extents out to the caller's buffer, in order. */
    static method CopyOut(pmo: Pmo, buf: array<Extent>)
      requires pmo.extentsLen <= pmo.extents.Length && pmo.extentsLen <= buf.Length
      requires buf != pmo.extents
      modifies buf
      ensures buf[..pmo.extentsLen] == pmo.MappedExtents()
    {
      var i := 0;
      while i < pmo.extentsLen
        invariant 0 <= i <= pmo.extentsLen
        invariant buf[..i] == pmo.extents[..i]
      {
        buf[i] := pmo.extents[i];
        i := i + 1;
      }
    }

    /** BusTransactionInitiatorDispatcher::Pin: refuse an unaligned offset
        and a BTI whose handles are gone, create the PMO, refuse a caller
        buffer too short for its extents, then copy them out and keep the
        PMO. Every failure leaves the list and the VM object's pins as they
        were; the oracles are those of PinnedMemory.Pmo.Create. */
    method Pin(vmo: Vmo, offset: nat, size: nat, perms: bv32, buf: array<Extent>,
               pages: seq<nat>, pinStatus: Status, arrayAllocOk: bool, pmoAllocOk: bool)
      returns (status: Status, actual: nat)
      requires Valid() && |pages| == NumPages(size) && size > 0
      requires forall k :: 0 <= k < |pinned| ==> pinned[k].extents != buf
      modifies this, vmo, buf
      ensures Valid() && zeroHandles == old(zeroHandles)
      ensures !PageAligned(offset) ==> status == ErrInvalidArgs
      ensures PageAligned(offset) && old(zeroHandles) ==> status == ErrBadState
      ensures PageAligned(offset) && !old(zeroHandles) ==>
                status == PinOutcome(pages, size, perms, pinStatus, arrayAllocOk, pmoAllocOk, buf.Length)
      ensures status != Ok ==>
                pinned == old(pinned) && Views() == old(Views()) && vmo.pins == old(vmo.pins)
      ensures status == Ok ==>
                var m := MapRange(io, busTxnId, pages, size, Contiguous(pages), perms);
                |pinned| == |old(pinned)| + 1 && pinned[..|old(pinned)|] == old(pinned) &&
                fresh(pinned[|old(pinned)|]) && pinned[|old(pinned)|].vmo == vmo &&
                actual == |m.extents| && actual <= buf.Length && buf[..actual] == m.extents &&
                Views() == old(Views()) + [m.extents] &&
                vmo.pins == old(vmo.pins) + multiset{PinRange(offset, size)}
    {
      actual := 0;
      if !PageAligned(offset) {
        return ErrInvalidArgs, 0;
      }
      if zeroHandles {
        return ErrBadState, 0;
      }
      var pmo;
      status, pmo := Pmo.Create(io, busTxnId, vmo, offset, size, perms, pages, pinStatus,
                                arrayAllocOk, pmoAllocOk);
      if status != Ok {
        return;
      }
      status, actual := Keep(pmo, buf);
    }

    /** The end of Pin, once the PMO exists: refuse a buffer too short for its
        extents, which destroys the PMO, or copy them out and append it. */
    method Keep(pmo: Pmo, buf: array<Extent>) returns (status: Status, actual: nat)
      requires Valid() && pmo.Valid() && pmo !in pinned && buf != pmo.extents
      requires forall k :: 0 <= k < |pinned| ==> pinned[k].extents != buf && pinned[k].extents != pmo.extents
      modifies this, pmo, pmo.vmo, buf
      ensures Valid() && zeroHandles == old(zeroHandles)
      ensures status == (if buf.Length < old(pmo.extentsLen) then ErrBufferTooSmall else Ok)
      ensures status != Ok ==>
                pinned == old(pinned) && Views() == old(Views()) &&
                pmo.vmo.pins == old(pmo.vmo.pins) - multiset{pmo.range}
      ensures status == Ok ==>
                pinned == old(pinned) + [pmo] && pmo.vmo.pins == old(pmo.vmo.pins) &&
                actual == old(pmo.extentsLen) && buf[..actual] == old(pmo.MappedExtents()) &&
                Views() == old(Views()) + [old(pmo.MappedExtents())]
    {
      if buf.Length < pmo.extentsLen {
        var _ := pmo.Destroy();
        return ErrBufferTooSmall, 0;
      }
      actual := Append(pmo, buf);
      status := Ok;
    }

    /** Copy a new PMO's extents out and append it to the list. */
    method Append(pmo: Pmo, buf: array<Extent>) returns (actual: nat)
      requires Valid() && pmo.Valid() && pmo !in pinned && buf != pmo.extents
      requires pmo.extentsLen <= buf.Length
      requires forall k :: 0 <= k < |pinned| ==> pinned[k].extents != buf
      modifies this, buf
      ensures Valid() && zeroHandles == old(zeroHandles)
      ensures pinned == old(pinned) + [pmo]
      ensures actual == pmo.extentsLen && buf[..actual] == pmo.MappedExtents()
      ensures Views() == old(Views()) + [pmo.MappedExtents()]
    {
      CopyOut(pmo, buf);
      actual := pmo.extentsLen;
      ViewsOfSnoc(pinned, pmo);
      AppendKeepsDistinct(pinned, pmo);
      pinned := pinned + [pmo];
    }

    /** Whether a PMO's extents are exactly `ext`: same count, then the same
        extent at every position, stopping at the first difference. */
    static method Matches(pmo: Pmo, ext: seq<Extent>) returns (same: bool)
      requires pmo.extentsLen <= pmo.extents.Length
      ensures same <==> pmo.MappedExtents() == ext
    {
      if pmo.extentsLen != |ext| {
        return false;
      }
      same := true;
      var i := 0;
      while i < |ext| && same
        invariant 0 <= i <= |ext|
        invariant same ==> pmo.extents[..i] == ext[..i]
        invariant !same ==> pmo.MappedExtents() != ext
        decreases |ext| - i, if same then 1 else 0
      {
        if ext[i] != pmo.extents[i] {
          assert pmo.MappedExtents()[i] != ext[i];
          same := false;
        } else {
          assert pmo.extents[..i + 1] == pmo.extents[..i] + [pmo.extents[i]];
          assert ext[..i + 1] == ext[..i] + [ext[i]];
          i := i + 1;
        }
      }
      if same {
        assert ext[..i] == ext;
      }
    }

    /** The index of the first pinned PMO whose extents are `ext`. */
    method Find(ext: seq<Extent>) returns (k: nat)
      requires Valid()
      ensures k == FirstMatch(Views(), ext)
    {
      k := 0;
      var found := false;
      while k < |pinned| && !found
        invariant 0 <= k <= |pinned|
        invariant forall j :: 0 <= j < k ==> Views()[j] != ext
        invariant found ==> k < |pinned| && Views()[k] == ext
        decreases |pinned| - k, if found then 0 else 1
      {
        found := Matches(pinned[k], ext);
        if !found {
          k := k + 1;
        }
      }
      FirstMatchIs(Views(), ext, k);
    }

    /** BusTransactionInitiatorDispatcher::Unpin: remove the first PMO whose
        extents are exactly `ext`, which unmaps it and drops its pin. */
    method Unpin(ext: seq<Extent>) returns (status: Status)
      requires Valid()
      modifies this, set p | p in pinned :: p, set p | p in pinned :: p.vmo
      ensures Valid() && zeroHandles == old(zeroHandles)
      ensures old(zeroHandles) ==> status == ErrBadState
      ensures !old(zeroHandles) ==> (status == Ok <==> ext in old(Views()))
      ensures status != Ok ==> status in {ErrBadState, ErrInvalidArgs} && pinned == old(pinned) && Views() == old(Views())
      ensures status == Ok ==>
                var k := FirstMatch(old(Views()), ext);
                k < |old(pinned)| &&
                pinned == RemoveAt(old(pinned), k) && Views() == RemoveAt(old(Views()), k) &&
                old(pinned)[k].extentsLen == 0 &&
                old(pinned)[k].vmo.pins == old(pinned[k].vmo.pins) - multiset{old(pinned)[k].range}
    {
      if zeroHandles {
        return ErrBadState;
      }
      status := UnpinLive(ext);
    }

    /** Unpin once the handles are known to be live: find the PMO, then
        remove it. */
    method UnpinLive(ext: seq<Extent>) returns (status: Status)
      requires Valid() && !zeroHandles
      modifies this, set p | p in pinned :: p, set p | p in pinned :: p.vmo
      ensures Valid() && !zeroHandles
      ensures status == Ok <==> ext in old(Views())
      ensures status != Ok ==> status == ErrInvalidArgs && pinned == old(pinned) && Views() == old(Views())
      ensures status == Ok ==>
                var k := FirstMatch(old(Views()), ext);
                k < |old(pinned)| &&
                pinned == RemoveAt(old(pinned), k) && Views() == RemoveAt(old(Views()), k) &&
                old(pinned)[k].extentsLen == 0 &&
                old(pinned)[k].vmo.pins == old(pinned[k].vmo.pins) - multiset{old(pinned)[k].range}
    {
      var k := Find(ext);
      if k == |pinned| {
        return ErrInvalidArgs;
      }
      assert pinned[k] in pinned;
      Remove(k);
      status := Ok;
    }

    /** Erase the k-th PMO from the list; its destructor unmaps it and drops
        its pin. */
    method Remove(k: nat)
      requires Valid() && k < |pinned|
      modifies this, pinned[k], pinned[k].vmo
      ensures Valid() && zeroHandles == old(zeroHandles)
      ensures pinned == RemoveAt(old(pinned), k) && Views() == RemoveAt(old(Views()), k)
      ensures old(pinned)[k].extentsLen == 0
      ensures old(pinned)[k].vmo.pins == old(pinned[k].vmo.pins) - multiset{old(pinned)[k].range}
    {
      ghost var views := Views();
      var pmo := pinned[k];
      RemovedViews(pinned, views, k);
      RemoveKeepsDistinct(pinned, k);
      pinned := RemoveAt(pinned, k);
      var _ := pmo.Destroy();
    }

    /** on_zero_handles: every PMO is released, and the BTI takes no more
        pins or unpins. */
    method OnZeroHandles()
      requires Valid()
      modifies this, set p | p in pinned :: p, set p | p in pinned :: p.vmo
      ensures Valid() && pinned == [] && zeroHandles
      ensures forall k :: 0 <= k < |old(pinned)| ==> old(pinned)[k].extentsLen == 0
    {
      ghost var all := pinned;
      ghost var i := 0;
      while pinned != []
        invariant 0 <= i <= |all| && pinned == all[i..]
        invariant forall j :: 0 <= j < i ==> all[j].extentsLen == 0
        invariant forall j :: i <= j < |all| ==> all[j].Valid()
        invariant forall a, b :: 0 <= a < b < |all| ==> all[a] != all[b]
        decreases |pinned|
      {
        var pmo := pinned[0];
        assert pmo == all[i] && pmo in all;
        pinned := pinned[1..];
        var _ := pmo.Destroy();
        i := i + 1;
      }
      zeroHandles := true;
    }
  }

  lemma FirstMatchIs(views: seq<seq<Extent>>, ext: seq<Extent>, k: nat)
    requires k <= |views|
    requires forall j :: 0 <= j < k ==> views[j] != ext
    requires k < |views| ==> views[k] == ext
    ensures k == FirstMatch(views, ext)
  {
  }

  lemma AppendKeepsDistinct(ps: seq<Pmo>, p: Pmo)
    requires forall i, j :: 0 <= i < j < |ps| ==> ps[i] != ps[j]
    requires p !in ps
    ensures forall i, j :: 0 <= i < j < |ps + [p]| ==> (ps + [p])[i] != (ps + [p])[j]
  {
  }

  lemma RemoveKeepsDistinct(ps: seq<Pmo>, k: nat)
    requires k < |ps| && forall i, j :: 0 <= i < j < |ps| ==> ps[i] != ps[j]
    ensures forall i, j :: 0 <= i < j < |RemoveAt(ps, k)| ==> RemoveAt(ps, k)[i] != RemoveAt(ps, k)[j]
    ensures ps[k] !in RemoveAt(ps, k)
    ensures forall q :: q in RemoveAt(ps, k) ==> q in ps
  {
    var r := RemoveAt(ps, k);
    forall i, j | 0 <= i < j < |r|
      ensures r[i] != r[j]
    {
      var i' := if i < k then i else i + 1;
      var j' := if j < k then j else j + 1;
      assert r[i] == ps[i'] && r[j] == ps[j'];
    }
    forall q | q in r
      ensures q in ps && q != ps[k]
    {
      var i :| 0 <= i < |r| && r[i] == q;
      var i' := if i < k then i else i + 1;
      assert r[i] == ps[i'];
    }
  }

  lemma ViewsOfSnoc(ps: seq<Pmo>, p: Pmo)
    requires forall j :: 0 <= j < |ps| ==> ps[j].extentsLen <= ps[j].extents.Length
    requires p.extentsLen <= p.extents.Length
    ensures ViewsOf(ps + [p]) == ViewsOf(ps) + [p.MappedExtents()]
  {
    assert (ps + [p])[..|ps|] == ps;
  }

  /** Removing a PMO from the list removes its extents from the views,
      provided the remaining PMOs are untouched. */
  lemma RemovedViews(ps: seq<Pmo>, views: seq<seq<Extent>>, k: nat)
    requires k < |ps| && forall j :: 0 <= j < |ps| ==> ps[j].extentsLen <= ps[j].extents.Length
    requires views == ViewsOf(ps)
    ensures ViewsOf(RemoveAt(ps, k)) == RemoveAt(views, k)
  {
    var rest := RemoveAt(ps, k);
    var r := ViewsOf(rest);
    var want := RemoveAt(views, k);
    assert |r| == |want| && |views| == |ps|;
    forall j | 0 <= j < |r|
      ensures r[j] == want[j]
    {
      if j < k {
        assert rest[j] == ps[j] && want[j] == views[j];
      } else {
        assert rest[j] == ps[j + 1] && want[j] == views[j + 1];
      }
    }
  }
}
