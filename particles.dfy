/**
 * The particle pool of main/artwork.c: a global doubly linked list of heap
 * cells with head `particles`. The heap cells owned by the list are a map
 * from address to particle; `brk` is the next address malloc hands out.
 */
module Particles {
  import opened Types
  import opened Artwork

  /** The pointer to position `k` of a list in `order`, or null outside it. */
  ghost function LinkAt(order: seq<nat>, k: int): Ptr
  {
    if 0 <= k < |order| then At(order[k]) else Null
  }

  /** The particles at the addresses in `order`, links cleared. */
  ghost function Bodies(order: seq<nat>, heap: map<nat, Particle>): (s: seq<Particle>)
    requires forall i :: 0 <= i < |order| ==> order[i] in heap
    ensures |s| == |order|
    ensures forall i {:trigger s[i]} :: 0 <= i < |order| ==> s[i] == Unlinked(heap[order[i]])
  {
    seq(|order|, i requires 0 <= i < |order| => Unlinked(heap[order[i]]))
  }

  /**
   * One frame of render_particles for one particle: move by the old
   * velocity, accelerate, apply drag, age by one frame.
   */
  function Advanced(p: Particle): (q: Particle)
    ensures q.age == p.age + 1 && q.lifespan == p.lifespan
    ensures q.prev == p.prev && q.next == p.next
  {
    p.(x := p.x + p.vx, y := p.y + p.vy,
       vx := (p.vx + p.gx) * (1.0 - p.drag), vy := (p.vy + p.gy) * (1.0 - p.drag),
       age := p.age + 1)
  }

  /** Every particle of `s` advanced one frame. */
  function AdvancedAll(s: seq<Particle>): (r: seq<Particle>)
    ensures |r| == |s|
    ensures forall i {:trigger r[i]} :: 0 <= i < |s| ==> r[i] == Advanced(s[i])
  {
    seq(|s|, i requires 0 <= i < |s| => Advanced(s[i]))
  }

  /** `n` frames of render_particles for one particle. */
  function Iterated(p: Particle, n: nat): Particle
  {
    if n == 0 then p else Advanced(Iterated(p, n - 1))
  }

  /** After `n` frames a particle is exactly `n` frames older and keeps its lifespan, file and tint. */
  lemma {:induction false} IteratedAges(p: Particle, n: nat)
    ensures Iterated(p, n).age == p.age + n
    ensures Iterated(p, n).lifespan == p.lifespan
    ensures Iterated(p, n).filename == p.filename && Iterated(p, n).color == p.color
  {
    if n > 0 {
      IteratedAges(p, n - 1);
    }
  }

  /**
   * Aging alone makes a particle fade monotonically and become fully
   * transparent once its lifespan has passed.
   */
  lemma FadesWithAge(p: Particle, n: nat)
    requires p.lifespan > 0 && p.age >= 0
    ensures LifeFraction(Iterated(p, n).age, p.lifespan).value <= LifeFraction(p.age, p.lifespan).value
    ensures n >= p.lifespan - p.age ==> LifeFraction(Iterated(p, n).age, p.lifespan) == Some(0.0)
  {
    IteratedAges(p, n);
    LifeFractionMonotone(p.age, p.age + n, p.lifespan);
  }

  /** A dust particle is visible for exactly its 20 frames. */
  lemma DustFades(x: real, y: real, n: nat)
    ensures LifeFraction(Iterated(Dust(x, y), n).age, Dust(x, y).lifespan).value > 0.0 <==> n < 20
  {
    IteratedAges(Dust(x, y), n);
  }

  /** `(int) draw`: the 32-bit draw reinterpreted as a two's-complement int. */
  function Signed(draw: nat): (s: int)
    requires draw < 0x1_0000_0000
    ensures -0x8000_0000 <= s < 0x8000_0000
    ensures s % 0x1_0000_0000 == draw
  {
    if draw < 0x8000_0000 then draw else draw - 0x1_0000_0000
  }

  const Int32Max: real := 2147483647.0

  /** Initial speed factor of a repelled particle. */
  const RepelSpeed: real := 2.0

  /**
   * `((int) draw) / (float) INT32_MAX * spread`: the random displacement
   * along one axis. For a positive spread it points forward exactly when
   * the draw's sign bit is clear.
   */
  function Offset(draw: nat, spread: real): (o: real)
    requires draw < 0x1_0000_0000
    ensures spread > 0.0 ==> (o >= 0.0 <==> draw < 0x8000_0000)
    ensures spread < 0.0 ==> (o <= 0.0 <==> draw < 0x8000_0000)
  {
    var q := Signed(draw) as real / Int32Max;
    MulSign(q, spread);
    q * spread
  }

  /** The sign of a product of reals. */
  lemma MulSign(a: real, c: real)
    ensures c > 0.0 ==> (a * c >= 0.0 <==> a >= 0.0)
    ensures c < 0.0 ==> (a * c <= 0.0 <==> a >= 0.0)
  {
    if c > 0.0 && a < 0.0 {
      assert (-a) * c > 0.0;
    }
    if c < 0.0 && a < 0.0 {
      assert (-a) * (-c) > 0.0;
    }
    if c < 0.0 && a >= 0.0 {
      assert a * (-c) >= 0.0;
    }
  }

  /**
   * The displacement reaches the full spread in either direction: for a
   * non-negative spread it lies between `-spread * 2^31 / INT32_MAX` and
   * `spread`; a negative spread mirrors the range.
   */
  lemma OffsetRange(draw: nat, spread: real)
    requires draw < 0x1_0000_0000
    ensures spread >= 0.0 ==> -(2147483648.0 / 2147483647.0) * spread <= Offset(draw, spread) <= spread
    ensures spread < 0.0 ==> spread <= Offset(draw, spread) <= -(2147483648.0 / 2147483647.0) * spread
  {
    var q := Signed(draw) as real / Int32Max;
    assert Offset(draw, spread) == q * spread;
    assert -(2147483648.0 / 2147483647.0) <= q <= 1.0;
    ScaledBetween(q, spread, 2147483648.0 / 2147483647.0);
    assert spread >= 0.0 ==> -(2147483648.0 / 2147483647.0) * spread <= q * spread <= spread;
    assert spread < 0.0 ==> spread <= q * spread <= -(2147483648.0 / 2147483647.0) * spread;
  }

  /** A fraction in [-low, 1] scales `s` to between `-low * s` and `s`, in the order of the sign of `s`. */
  lemma ScaledBetween(q: real, s: real, low: real)
    requires low >= 0.0 && -low <= q <= 1.0
    ensures s >= 0.0 ==> -low * s <= q * s <= s
    ensures s < 0.0 ==> s <= q * s <= -low * s
  {
    if s >= 0.0 {
      MulMonotone(-low, q, s);
      MulMonotone(q, 1.0, s);
    } else {
      MulMonotone(-low, q, -s);
      MulMonotone(q, 1.0, -s);
      assert q * -s == -(q * s);
      assert -low * -s == -(-low * s);
    }
  }

  /** Scaling by a non-negative factor keeps the order of two reals. */
  lemma MulMonotone(a: real, b: real, c: real)
    requires a <= b && c >= 0.0
    ensures a * c <= b * c
  {
    assert (b - a) * c >= 0.0;
  }

  /** The upper end is reached: the draw 0x7fffffff displaces by exactly `spread`. */
  lemma OffsetReachesSpread(spread: real)
    ensures Offset(0x7fff_ffff, spread) == spread
  {
    assert Signed(0x7fff_ffff) as real / Int32Max == 1.0;
  }

  /**
   * The copy of `t` that one round of particle_spread makes from draws
   * `dx` and `dy`: displaced from `t`, and when repelling, sent away from
   * `t` at twice the drawn fraction, whatever the spread.
   */
  function SpreadCopy(t: Particle, dx: nat, dy: nat, spreadX: real, spreadY: real, repel: bool): (c: Particle)
    requires dx < 0x1_0000_0000 && dy < 0x1_0000_0000
    ensures SharesTemplate(c, t, spreadX, spreadY, repel) && c.prev == t.prev && c.next == t.next
    ensures c.x == t.x + Offset(dx, spreadX) && c.y == t.y + Offset(dy, spreadY)
    ensures repel && spreadX != 0.0 ==> c.vx == Signed(dx) as real / Int32Max * RepelSpeed
    ensures repel && spreadY != 0.0 ==> c.vy == Signed(dy) as real / Int32Max * RepelSpeed
  {
    var x := t.x + Offset(dx, spreadX);
    var y := t.y + Offset(dy, spreadY);
    RepelSpeedOf(t.x, dx, spreadX);
    RepelSpeedOf(t.y, dy, spreadY);
    t.(x := x, y := y,
       vx := if repel && spreadX != 0.0 then (x - t.x) / spreadX * RepelSpeed else t.vx,
       vy := if repel && spreadY != 0.0 then (y - t.y) / spreadY * RepelSpeed else t.vy)
  }

  /** Dividing a displacement by its spread gives back the drawn fraction. */
  lemma RepelSpeedOf(base: real, draw: nat, spread: real)
    requires draw < 0x1_0000_0000
    ensures spread != 0.0 ==>
      ((base + Offset(draw, spread)) - base) / spread * RepelSpeed == Signed(draw) as real / Int32Max * RepelSpeed
  {
    var q := Signed(draw) as real / Int32Max;
    if spread != 0.0 {
      assert Offset(draw, spread) / spread == q;
    }
  }

  /** What a spread copy keeps of its template. */
  ghost predicate SharesTemplate(p: Particle, t: Particle, spreadX: real, spreadY: real, repel: bool)
  {
    && p.lifespan == t.lifespan && p.age == t.age && p.filename == t.filename
    && p.drag == t.drag && p.gx == t.gx && p.gy == t.gy && p.color == t.color
    && (!(repel && spreadX != 0.0) ==> p.vx == t.vx)
    && (!(repel && spreadY != 0.0) ==> p.vy == t.vy)
  }

  ghost predicate Draws32(draws: seq<nat>)
  {
    forall i :: 0 <= i < |draws| ==> draws[i] < 0x1_0000_0000
  }

  /**
   * The particles that the first `n` rounds of particle_spread push, as
   * they then lie at the front of the list: newest first.
   */
  ghost function SpreadFront(t: Particle, draws: seq<nat>, n: nat, spreadX: real, spreadY: real, repel: bool): (s: seq<Particle>)
    requires 2 * n <= |draws| && Draws32(draws)
    ensures |s| == n
    ensures forall k :: 0 <= k < n ==> s[k].prev == Null && s[k].next == Null
    ensures forall k :: 0 <= k < n ==> SharesTemplate(s[k], t, spreadX, spreadY, repel)
  {
    if n == 0 then []
    else
      [Unlinked(SpreadCopy(t, draws[2 * (n - 1)], draws[2 * (n - 1) + 1], spreadX, spreadY, repel))]
      + SpreadFront(t, draws, n - 1, spreadX, spreadY, repel)
  }

  /** Position `i` of `order` is a cell whose prev/next point at its neighbours in `order`. */
  ghost predicate LinkedAt(order: seq<nat>, heap: map<nat, Particle>, i: int)
  {
    && 0 <= i < |order| && order[i] in heap
    && heap[order[i]].prev == LinkAt(order, i - 1)
    && heap[order[i]].next == LinkAt(order, i + 1)
  }

  /** Positions `i` and `j` of `order` hold different addresses. */
  ghost predicate Apart(order: seq<nat>, i: int, j: int)
  {
    0 <= i < |order| && 0 <= j < |order| && order[i] != order[j]
  }

  /** No address occurs twice in `order`. */
  ghost predicate Distinct(order: seq<nat>)
  {
    forall i, j :: 0 <= i < j < |order| ==> Apart(order, i, j)
  }

  lemma DistinctAt(order: seq<nat>, i: int, j: int)
    requires Distinct(order) && 0 <= i < |order| && 0 <= j < |order| && i != j
    ensures order[i] != order[j]
  {
    if i < j {
      assert Apart(order, i, j);
    } else {
      assert Apart(order, j, i);
    }
  }

  /**
   * The shape of a doubly linked list: `order` lists every cell of `heap`
   * exactly once, and each cell is linked to its neighbours in `order`.
   */
  ghost predicate ListShape(order: seq<nat>, heap: map<nat, Particle>)
  {
    && (forall i {:trigger order[i] in heap} :: 0 <= i < |order| ==> order[i] in heap)
    && (forall i :: 0 <= i < |order| ==> LinkedAt(order, heap, i))
    && Distinct(order)
    && (forall a {:trigger a in heap} :: a in heap ==> a in order)
  }

  /** The cells after particle_add stores `p` at the fresh address `mem` and links the old head back to it. */
  ghost function PushedHeap(order: seq<nat>, heap: map<nat, Particle>, mem: nat, p: Particle): map<nat, Particle>
    requires order != [] ==> order[0] in heap
  {
    if order == [] then heap[mem := p]
    else heap[mem := p][order[0] := heap[order[0]].(prev := At(mem))]
  }

  lemma PushDistinct(order: seq<nat>, mem: nat)
    requires Distinct(order) && mem !in order
    ensures Distinct([mem] + order)
  {
    var o2 := [mem] + order;
    forall i, j | 0 <= i < j < |o2|
      ensures Apart(o2, i, j)
    {
      assert o2[j] == order[j - 1];
      if i > 0 {
        assert o2[i] == order[i - 1];
        DistinctAt(order, i - 1, j - 1);
      }
    }
  }

  lemma PushLinked(order: seq<nat>, heap: map<nat, Particle>, mem: nat, p: Particle)
    requires forall i :: 0 <= i < |order| ==> LinkedAt(order, heap, i)
    requires Distinct([mem] + order)
    requires p.prev == Null && p.next == LinkAt(order, 0)
    requires order != [] ==> order[0] in heap
    ensures forall i :: 0 <= i < |order| + 1 ==> LinkedAt([mem] + order, PushedHeap(order, heap, mem, p), i)
  {
    var o2, h2 := [mem] + order, PushedHeap(order, heap, mem, p);
    forall i | 0 <= i < |o2|
      ensures LinkedAt(o2, h2, i)
    {
      if i == 0 {
        if order != [] {
          DistinctAt(o2, 1, 0);
        }
        assert h2[mem] == p;
      } else {
        assert LinkedAt(order, heap, i - 1);
        assert o2[i] == order[i - 1];
        DistinctAt(o2, i, 0);
        if i > 1 {
          DistinctAt(o2, i, 1);
        }
      }
    }
  }

  lemma PushBodies(order: seq<nat>, heap: map<nat, Particle>, mem: nat, p: Particle)
    requires forall i :: 0 <= i < |order| ==> order[i] in heap
    requires mem !in heap
    ensures Bodies([mem] + order, PushedHeap(order, heap, mem, p)) == [Unlinked(p)] + Bodies(order, heap)
  {
    var o2, h2 := [mem] + order, PushedHeap(order, heap, mem, p);
    var b2, b := Bodies(o2, h2), [Unlinked(p)] + Bodies(order, heap);
    forall i | 0 <= i < |o2|
      ensures b2[i] == b[i]
    {
      if i > 0 {
        assert o2[i] == order[i - 1] && order[i - 1] in heap;
      }
    }
  }

  /** Pushing a fresh cell in front keeps the list shape and prepends exactly that particle. */
  lemma PushShape(order: seq<nat>, heap: map<nat, Particle>, mem: nat, p: Particle)
    requires ListShape(order, heap) && mem !in heap
    requires p.prev == Null && p.next == LinkAt(order, 0)
    ensures ListShape([mem] + order, PushedHeap(order, heap, mem, p))
    ensures Bodies([mem] + order, PushedHeap(order, heap, mem, p)) == [Unlinked(p)] + Bodies(order, heap)
    ensures PushedHeap(order, heap, mem, p).Keys == heap.Keys + {mem}
    ensures PushedHeap(order, heap, mem, p)[mem] == p
  {
    var o2, h2 := [mem] + order, PushedHeap(order, heap, mem, p);
    assert order != [] ==> LinkedAt(order, heap, 0);
    PushDistinct(order, mem);
    PushLinked(order, heap, mem, p);
    PushBodies(order, heap, mem, p);
    forall i | 0 <= i < |o2|
      ensures o2[i] in h2
    {
      assert LinkedAt(o2, h2, i);
    }
    forall a | a in h2
      ensures a in o2
    {
      if a != mem {
        assert a in order;
      }
    }
  }

  /** `order` without position `k`. */
  function Removed(order: seq<nat>, k: nat): (r: seq<nat>)
    requires k < |order|
    ensures |r| == |order| - 1
    ensures forall j :: 0 <= j < |r| ==> r[j] == order[if j < k then j else j + 1]
  {
    order[..k] + order[k + 1..]
  }

  /**
   * The cells after particle_delete unlinks and frees `part`: its
   * predecessor skips forward, its successor skips back.
   */
  ghost function UnlinkedHeap(heap: map<nat, Particle>, part: nat): map<nat, Particle>
    requires part in heap
  {
    var node := heap[part];
    var h1 := if node.prev.At? && node.prev.addr in heap
              then heap[node.prev.addr := heap[node.prev.addr].(next := node.next)] else heap;
    var h2 := if node.next.At? && node.next.addr in h1
              then h1[node.next.addr := h1[node.next.addr].(prev := node.prev)] else h1;
    h2 - {part}
  }

  lemma LinkAtRemoved(order: seq<nat>, k: nat, j: int)
    requires k < |order| && -1 <= j <= |order| - 1
    ensures LinkAt(Removed(order, k), j) == LinkAt(order, if j < k then j else j + 1)
  {
  }

  lemma RemovedDistinct(order: seq<nat>, k: nat)
    requires Distinct(order) && k < |order|
    ensures Distinct(Removed(order, k))
    ensures order[k] !in Removed(order, k)
  {
    var o2 := Removed(order, k);
    forall i, j | 0 <= i < j < |o2|
      ensures Apart(o2, i, j)
    {
      var mi, mj := if i < k then i else i + 1, if j < k then j else j + 1;
      assert o2[i] == order[mi] && o2[j] == order[mj] && mi < mj;
      DistinctAt(order, mi, mj);
    }
    forall i | 0 <= i < |o2|
      ensures o2[i] != order[k]
    {
      var m := if i < k then i else i + 1;
      assert o2[i] == order[m];
      DistinctAt(order, m, k);
    }
  }

  lemma UnlinkLinked(order: seq<nat>, heap: map<nat, Particle>, k: nat)
    requires forall i :: 0 <= i < |order| ==> LinkedAt(order, heap, i)
    requires Distinct(order) && k < |order|
    ensures order[k] in heap
    ensures forall i :: 0 <= i < |order| - 1 ==> LinkedAt(Removed(order, k), UnlinkedHeap(heap, order[k]), i)
  {
    assert LinkedAt(order, heap, k);
    var part := order[k];
    var o2, h2 := Removed(order, k), UnlinkedHeap(heap, part);
    var node := heap[part];
    forall i | 0 <= i < |o2|
      ensures LinkedAt(o2, h2, i)
    {
      var m := if i < k then i else i + 1;
      assert o2[i] == order[m] && m != k;
      assert LinkedAt(order, heap, m);
      DistinctAt(order, m, k);
      LinkAtRemoved(order, k, i - 1);
      LinkAtRemoved(order, k, i + 1);
      if k > 0 && m != k - 1 {
        DistinctAt(order, k - 1, m);
      }
      if k + 1 < |order| && m != k + 1 {
        DistinctAt(order, k + 1, m);
      }
    }
  }

  lemma UnlinkBodies(order: seq<nat>, heap: map<nat, Particle>, k: nat)
    requires forall i :: 0 <= i < |order| ==> order[i] in heap
    requires Distinct(order) && k < |order|
    requires forall i :: 0 <= i < |Removed(order, k)| ==> Removed(order, k)[i] in UnlinkedHeap(heap, order[k])
    ensures Bodies(Removed(order, k), UnlinkedHeap(heap, order[k]))
            == Bodies(order, heap)[..k] + Bodies(order, heap)[k + 1..]
  {
    var o2, h2 := Removed(order, k), UnlinkedHeap(heap, order[k]);
    var b2, b := Bodies(o2, h2), Bodies(order, heap)[..k] + Bodies(order, heap)[k + 1..];
    forall i | 0 <= i < |o2|
      ensures b2[i] == b[i]
    {
      var m := if i < k then i else i + 1;
      assert o2[i] == order[m];
    }
  }

  /** Unlinking the cell at position `k` keeps the list shape and drops exactly that particle. */
  lemma UnlinkShape(order: seq<nat>, heap: map<nat, Particle>, k: nat)
    requires ListShape(order, heap) && k < |order|
    ensures order[k] in heap
    ensures ListShape(Removed(order, k), UnlinkedHeap(heap, order[k]))
    ensures UnlinkedHeap(heap, order[k]).Keys == heap.Keys - {order[k]}
    ensures Bodies(Removed(order, k), UnlinkedHeap(heap, order[k]))
            == Bodies(order, heap)[..k] + Bodies(order, heap)[k + 1..]
  {
    var o2, h2 := Removed(order, k), UnlinkedHeap(heap, order[k]);
    RemovedDistinct(order, k);
    UnlinkLinked(order, heap, k);
    forall i | 0 <= i < |o2|
      ensures o2[i] in h2
    {
      assert LinkedAt(o2, h2, i);
    }
    UnlinkBodies(order, heap, k);
    forall a | a in h2
      ensures a in o2
    {
      assert a in order && a != order[k];
      var m :| 0 <= m < |order| && order[m] == a;
      assert o2[if m < k then m else m - 1] == a;
    }
  }

  /**
   * The first `i` cells of `order` have advanced one frame from `h0`, the
   * rest are as in `h0`.
   */
  ghost predicate AdvancedUpTo(order: seq<nat>, h0: map<nat, Particle>, h: map<nat, Particle>, i: nat)
  {
    && i <= |order| && h.Keys == h0.Keys
    && (forall j :: 0 <= j < |order| ==> order[j] in h0)
    && (forall j :: 0 <= j < i ==> h[order[j]] == Advanced(h0[order[j]]))
    && (forall j :: i <= j < |order| ==> h[order[j]] == h0[order[j]])
  }

  /** One more step of render_particles: advancing cell `i` extends the advanced prefix. */
  lemma AdvanceOne(order: seq<nat>, h0: map<nat, Particle>, h: map<nat, Particle>, i: nat)
    requires ListShape(order, h0) && AdvancedUpTo(order, h0, h, i) && i < |order|
    ensures order[i] in h && h[order[i]].next == LinkAt(order, i + 1)
    ensures AdvancedUpTo(order, h0, h[order[i] := Advanced(h[order[i]])], i + 1)
  {
    assert LinkedAt(order, h0, i);
    var h2 := h[order[i] := Advanced(h[order[i]])];
    forall j | 0 <= j < |order| && j != i
      ensures h2[order[j]] == h[order[j]]
    {
      DistinctAt(order, i, j);
    }
  }

  /** Advancing a particle does not touch its links. */
  lemma AdvancedUnlinked(p: Particle)
    ensures Unlinked(Advanced(p)) == Advanced(Unlinked(p))
  {
    var q := Particle(Null, Null, p.x + p.vx, p.y + p.vy,
                      (p.vx + p.gx) * (1.0 - p.drag), (p.vy + p.gy) * (1.0 - p.drag),
                      p.gx, p.gy, p.drag, p.filename, p.color, p.lifespan, p.age + 1);
    assert Unlinked(Advanced(p)) == q;
    assert Advanced(Unlinked(p)) == q;
  }

  /** Advancing every cell in place keeps the list shape and advances every particle. */
  lemma AdvanceShape(order: seq<nat>, h0: map<nat, Particle>, h: map<nat, Particle>)
    requires ListShape(order, h0) && AdvancedUpTo(order, h0, h, |order|)
    ensures ListShape(order, h)
    ensures forall a :: a in h ==> a in h0 && h[a] == Advanced(h0[a])
    ensures Bodies(order, h) == AdvancedAll(Bodies(order, h0))
  {
    var b, b0 := Bodies(order, h), AdvancedAll(Bodies(order, h0));
    forall i | 0 <= i < |order|
      ensures b[i] == b0[i]
    {
      var p := h0[order[i]];
      assert h[order[i]] == Advanced(p);
      AdvancedUnlinked(p);
    }
    forall i | 0 <= i < |order|
      ensures LinkedAt(order, h, i)
    {
      assert LinkedAt(order, h0, i);
    }
    forall a | a in h
      ensures a in h0 && h[a] == Advanced(h0[a])
    {
      assert a in order;
    }
  }

  /** One more round of particle_spread pushes its copy in front of the earlier ones. */
  lemma SpreadStep(t: Particle, draws: seq<nat>, i: nat, spreadX: real, spreadY: real, repel: bool, rest: seq<Particle>)
    requires 2 * (i + 1) <= |draws| && Draws32(draws)
    ensures SpreadFront(t, draws, i + 1, spreadX, spreadY, repel) + rest
            == [Unlinked(SpreadCopy(t, draws[2 * i], draws[2 * i + 1], spreadX, spreadY, repel))]
               + (SpreadFront(t, draws, i, spreadX, spreadY, repel) + rest)
  {
  }

  class ParticleList {
    /** The global list head. */
    var particles: Ptr
    /** The heap cells that hold particles, by address. */
    var heap: map<nat, Particle>
    /** The next address malloc hands out. */
    var brk: nat
    /** The addresses of the list, from head to tail. */
    ghost var order: seq<nat>

    /**
     * The list invariant: the cells form a doubly linked list in `order`
     * whose first cell is the head, and malloc has not handed out any
     * address at or above `brk`.
     */
    ghost predicate Valid()
      reads this
    {
      && ListShape(order, heap)
      && (forall a :: a in heap ==> a < brk)
      && particles == LinkAt(order, 0)
    }

    /** The particles from head to tail, without their links. */
    ghost function Contents(): seq<Particle>
      reads this
      requires Valid()
    {
      Bodies(order, heap)
    }

    /** The empty list (`particle_t *particles;` starts out null). */
    constructor ()
      ensures Valid() && order == [] && particles == Null && heap == map[]
    {
      particles := Null;
      heap := map[];
      brk := 0;
      order := [];
    }

    /**
     * particle_add: pushes a copy of `part` onto the front of the list.
     */
    method Add(part: Particle)
      requires Valid()
      modifies this
      ensures Valid()
      ensures Contents() == [Unlinked(part)] + old(Contents())
      ensures order[1..] == old(order) && order[0] !in old(heap)
      ensures heap.Keys == old(heap.Keys) + {order[0]}
      ensures particles == At(order[0])
      ensures heap[order[0]] == part.(prev := Null, next := old(particles))
    {
      var p := part.(prev := Null, next := particles);
      var mem := brk;
      brk := brk + 1;
      heap := heap[mem := p];
      if particles != Null {
        heap := heap[particles.addr := heap[particles.addr].(prev := At(mem))];
      }
      particles := At(mem);
      order := [mem] + order;
      assert order[1..] == old(order);
      PushShape(old(order), old(heap), mem, p);
      assert heap == PushedHeap(old(order), old(heap), mem, p);
    }

    /**
     * particle_delete: unlinks the cell at `part` and frees it.
     */
    method Delete(part: nat) returns (ghost k: nat)
      requires Valid() && part in heap
      modifies this
      ensures Valid()
      ensures heap.Keys == old(heap.Keys) - {part}
      ensures k < |old(order)| && old(order)[k] == part && order == Removed(old(order), k)
      ensures Contents() == old(Contents())[..k] + old(Contents())[k + 1..]
      ensures old(particles) == At(part) ==> particles == old(heap[part].next)
      ensures old(particles) != At(part) ==> particles == old(particles)
    {
      assert part in order;
      k :| 0 <= k < |order| && order[k] == part;
      assert LinkedAt(order, heap, k);
      var node := heap[part];
      if node.prev != Null {
        heap := heap[node.prev.addr := heap[node.prev.addr].(next := node.next)];
      } else {
        particles := node.next;
      }
      ghost var h1 := heap;
      if node.next != Null {
        assert node.next.addr in h1;
        heap := heap[node.next.addr := heap[node.next.addr].(prev := node.prev)];
      }
      heap := heap - {part};
      order := Removed(order, k);
      UnlinkShape(old(order), old(heap), k);
      assert heap == UnlinkedHeap(old(heap), part);
      LinkAtRemoved(old(order), k, 0);
    }

    /** particle_clear: deletes the head until the list is empty. */
    method Clear()
      requires Valid()
      modifies this
      ensures Valid() && order == [] && particles == Null && heap == map[]
    {
      while particles != Null
        invariant Valid()
        decreases |order|
      {
        var _ := Delete(particles.addr);
      }
      assert heap.Keys == {};
    }

    /**
     * render_particles: advances every particle one frame, in place,
     * walking the list from the head.
     */
    method Render()
      requires Valid()
      modifies this
      ensures Valid()
      ensures order == old(order) && particles == old(particles) && heap.Keys == old(heap.Keys)
      ensures forall a :: a in heap ==> heap[a] == Advanced(old(heap[a]))
      ensures Contents() == AdvancedAll(old(Contents()))
    {
      var cur := particles;
      ghost var i := 0;
      while cur != Null
        invariant 0 <= i <= |order| && cur == LinkAt(order, i)
        invariant order == old(order) && particles == old(particles) && brk == old(brk)
        invariant AdvancedUpTo(order, old(heap), heap, i)
        decreases |order| - i
      {
        AdvanceOne(order, old(heap), heap, i);
        assert cur.addr == order[i];
        var p := Advanced(heap[cur.addr]);
        heap := heap[cur.addr := p];
        cur := p.next;
        i := i + 1;
      }
      AdvanceShape(order, old(heap), heap);
    }

    /**
     * particle_spread: pushes `number` perturbed copies of `t`. Each copy
     * takes two 32-bit draws from `draws`, x first, then y. Bit 0 of
     * `spreading` (REPEL_RECTANGULAR) asks for repelled velocities.
     */
    method Spread(t: Particle, number: nat, spreadX: real, spreadY: real, spreading: bv32, draws: seq<nat>)
      requires Valid()
      requires |draws| == 2 * number && Draws32(draws)
      modifies this
      ensures Valid()
      ensures Contents() == SpreadFront(t, draws, number, spreadX, spreadY, spreading & 1 == 1) + old(Contents())
    {
      var repel := spreading & 1 == 1;
      ghost var initial := Contents();
      var i := 0;
      while i < number
        invariant 0 <= i <= number && Valid()
        invariant Contents() == SpreadFront(t, draws, i, spreadX, spreadY, repel) + initial
      {
        var part := SpreadCopy(t, draws[2 * i], draws[2 * i + 1], spreadX, spreadY, repel);
        SpreadStep(t, draws, i, spreadX, spreadY, repel, initial);
        Add(part);
        i := i + 1;
      }
    }
  }
}
