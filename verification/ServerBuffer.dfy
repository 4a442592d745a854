/** The request buffer of snfs_server/server.c: a ring of ten slots with a reading and a writing position. */
module ServerBuffer {
  import opened Bytes

  const RING_SIZE: nat := 10

  /** A request as received: its serial number, its type code and its body. */
  datatype Req = Req(sn: int, kind: int, body: seq<byte>)

  /** The ring with the positions of get_req and put_req; a slot never written holds no request. */
  datatype RingImage = RingImage(slots: seq<Option<Req>>, getPos: nat, putPos: nat)

  type Ring = r: RingImage | |r.slots| == RING_SIZE && r.getPos < RING_SIZE && r.putPos < RING_SIZE
    witness RingImage(seq(RING_SIZE, _ => None), 0, 0)

  function EmptyRing(): Ring {
    RingImage(seq(RING_SIZE, _ => None), 0, 0)
  }

  /** get_req: whatever is in the slot at the reading position, which moves on. */
  function GetReq(r: Ring): (Option<Req>, Ring) {
    (r.slots[r.getPos], r.(getPos := (r.getPos + 1) % RING_SIZE))
  }

  /** put_req: the slot at the writing position is overwritten, whatever it held. */
  function PutReq(r: Ring, q: Req): Ring {
    r.(slots := r.slots[r.putPos := Some(q)], putPos := (r.putPos + 1) % RING_SIZE)
  }

  /** The slot i places behind position p. */
  function Place(p: nat, i: nat): (k: nat)
    ensures k < RING_SIZE
  {
    (p + i) % RING_SIZE
  }

  lemma PlaceShift(p: nat, i: nat)
    ensures Place((p + 1) % RING_SIZE, i) == Place(p, i + 1)
  {
  }

  lemma PlacesDiffer(p: nat, i: nat, j: nat)
    requires i < j < RING_SIZE
    ensures Place(p, i) != Place(p, j)
  {
  }

  /** The n slots from the reading position on. */
  function Pending(r: Ring, n: nat): (s: seq<Option<Req>>)
    ensures |s| == n && forall i :: 0 <= i < n ==> s[i] == r.slots[Place(r.getPos, i)]
  {
    seq(n, i requires 0 <= i => r.slots[Place(r.getPos, i)])
  }

  lemma PendingAfterGet(r: Ring, n: nat)
    requires 0 < n
    ensures GetReq(r).0 == Pending(r, n)[0] && Pending(GetReq(r).1, n - 1) == Pending(r, n)[1..]
    ensures Place(GetReq(r).1.getPos, n - 1) == Place(r.getPos, n)
  {
    hide Place;
    assert Place(r.getPos, 0) == r.getPos by { PlaceOfFirst(r); }
    var next := (r.getPos + 1) % RING_SIZE;
    forall i: nat | i < n ensures Place(next, i) == Place(r.getPos, i + 1) {
      PlaceShift(r.getPos, i);
    }
  }

  lemma PlaceOfFirst(r: Ring)
    ensures Place(r.getPos, 0) == r.getPos
  {
  }

  lemma PendingAfterPut(r: Ring, n: nat, q: Req)
    requires n < RING_SIZE && r.putPos == Place(r.getPos, n)
    ensures Pending(PutReq(r, q), n + 1) == Pending(r, n) + [Some(q)]
    ensures PutReq(r, q).putPos == Place(r.getPos, n + 1)
  {
    assert PutReq(r, q).putPos == Place(r.getPos, n + 1);
    hide Place;
    forall i: nat | i < n ensures PutReq(r, q).slots[Place(r.getPos, i)] == r.slots[Place(r.getPos, i)] {
      PlacesDiffer(r.getPos, i, n);
    }
  }

  lemma GetKeepsPut(r: Ring)
    ensures GetReq(r).1.putPos == r.putPos
  {
  }

  lemma PutKeepsGet(r: Ring, q: Req)
    ensures PutReq(r, q).getPos == r.getPos
  {
  }

  class RequestRing {
    const ring: array<Option<Req>>
    var getPos: nat
    var putPos: nat
    var available: int

    ghost predicate Shape()
      reads this
    {
      ring.Length == RING_SIZE && getPos < RING_SIZE && putPos < RING_SIZE
    }

    ghost function Image(): Ring
      requires Shape()
      reads this, ring
    {
      RingImage(ring[..], getPos, putPos)
    }

    /** The available requests lie between the reading and the writing position. */
    ghost predicate Valid()
      reads this, ring
    {
      && Shape() && 0 <= available <= RING_SIZE && putPos == Place(getPos, available)
      && forall i :: 0 <= i < available ==> Pending(Image(), available)[i].Some?
    }

    /** The requests put and not yet taken, oldest first. */
    ghost function Contents(): (c: seq<Req>)
      requires Valid()
      reads this, ring
      ensures |c| == available && forall i :: 0 <= i < available ==> Pending(Image(), available)[i] == Some(c[i])
    {
      var p := Pending(Image(), available);
      seq(|p|, i requires 0 <= i < |p| && p[i].Some? => p[i].value)
    }

    constructor ()
      ensures Valid() && fresh(ring) && Contents() == [] && Image() == EmptyRing()
    {
      ring := new Option<Req>[RING_SIZE](_ => None);
      getPos, putPos, available := 0, 0, 0;
    }

    method Get() returns (r: Option<Req>)
      requires Shape()
      modifies this`getPos
      ensures Shape() && (r, Image()) == GetReq(old(Image()))
    {
      r := ring[getPos];
      getPos := (getPos + 1) % RING_SIZE;
    }

    method Put(q: Req)
      requires Shape()
      modifies this`putPos, ring
      ensures Shape() && Image() == PutReq(old(Image()), q)
    {
      ring[putPos] := Some(q);
      putPos := (putPos + 1) % RING_SIZE;
    }

    /** What a consumer does once a request is available: the oldest request, and only it, leaves the buffer. */
    method Take() returns (r: Req)
      requires Valid() && available > 0
      modifies this`getPos, this`available
      ensures Valid() && r == old(Contents())[0] && Contents() == old(Contents())[1..]
    {
      hide Place, GetReq, Pending;
      PendingAfterGet(Image(), available);
      var q := Get();
      GetKeepsPut(old(Image()));
      assert q == Some(old(Contents())[0]);
      r := q.value;
      available := available - 1;
      forall i | 0 <= i < available ensures Pending(Image(), available)[i] == Some(old(Contents())[i + 1]) {}
    }

    /** What the producer does with room for a request: it joins behind the others, none of which is overwritten. */
    method Add(q: Req)
      requires Valid() && available < RING_SIZE
      modifies this`putPos, this`available, ring
      ensures Valid() && Contents() == old(Contents()) + [q]
    {
      hide Place, PutReq, Pending;
      ghost var was := Contents();
      PendingAfterPut(Image(), available, q);
      PutKeepsGet(Image(), q);
      Put(q);
      available := available + 1;
      forall i | 0 <= i < available ensures Pending(Image(), available)[i] == Some((was + [q])[i]) {}
    }
  }
}
