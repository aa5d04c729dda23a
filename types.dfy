/** Shared records of the game: pointers, the particle struct and its dust template. */
module Types {

  /** A C pointer: null, or the address of a heap cell. */
  datatype Ptr = Null | At(addr: nat)

  datatype Option<T> = None | Some(value: T)

  /** A 32-bit ARGB colour (pax_col_t). */
  type Color = c: int | 0 <= c < 0x1_0000_0000

  /**
   * One visual-effect particle (struct particle). The `prev`/`next` links
   * belong to the global particle list; floats are modelled as reals.
   */
  datatype Particle = Particle(
    prev: Ptr, next: Ptr,
    x: real, y: real,
    vx: real, vy: real,
    gx: real, gy: real,
    drag: real,
    filename: string,
    color: Color,
    lifespan: int,
    age: int)

  /** The particle with its list links cleared: what the particle is, apart from where it sits. */
  function Unlinked(p: Particle): (u: Particle)
    ensures u.prev == Null && u.next == Null
    ensures u.(prev := p.prev, next := p.next) == p
  {
    p.(prev := Null, next := Null)
  }

  /** The default dust particle at a given position (PARTICLE_DUST). */
  function Dust(x: real, y: real): (d: Particle)
    ensures d.prev == Null && d.next == Null && d.x == x && d.y == y
    ensures d.vx == 0.0 && d.vy == 0.0 && d.gx == 0.0 && d.gy == 0.0 && d.drag == 0.2
    ensures d.filename == "dust.png" && d.color == 0xffffffff
    ensures d.lifespan == 20 && d.age == 0
  {
    Particle(Null, Null, x, y, 0.0, 0.0, 0.0, 0.0, 0.2, "dust.png", 0xffffffff, 20, 0)
  }
}
