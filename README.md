# Floppy Bard: particles, pole variants and the resource cache

A Dafny model of two pieces of the Floppy Bard game for the MCH2022 badge.

- **Particle pool and variant helpers** (`main/artwork.c`):
  - The visual-effect particles live in a global doubly linked list with head `particles`. `particle_add` pushes a copy onto the front, `particle_delete` unlinks and frees one node, `particle_clear` empties the list, `particle_spread` pushes perturbed copies of a template, and `render_particles` advances every particle one frame.
  - `random_variant` turns a 32-bit random draw into a pole variant, skipping the current one.
  - `draw_pole` picks a pole's colour from the variant table, with a fallback colour.
  - `draw_particles` fades a particle by the fraction of its life that is left.
- **Resource cache** (`main/resources.c`): a static table `builtins` of embedded PNG resources. Each entry is loaded on demand (`resource_load`), can be unloaded (`resource_unload`), and is found by name (`resource_find`). The getters `resource_get` and `resource_get_long` sit on top.

Modules:

- `Types` (`types.dfy`): pointers, the `particle_t` record and the `PARTICLE_DUST` template.
- `Artwork` (`artwork.dfy`): the pure rules.
- `Particles` (`particles.dfy`): the particle list as a class. Its heap is a map from addresses to particle cells, `particles` is the head pointer, and `brk` is the next address malloc hands out. A ghost sequence `order` lists the cells from head to tail. `Valid()` says that every cell's `prev`/`next` point at its neighbours in `order`, that the addresses are distinct, and that the heap holds exactly the list's cells. `Contents()` is the list's particles with their links cleared.
- `Resources` (`resources.dfy`): the `builtins` table as an array of entry records inside a class. `Valid()` is the cache invariant: an entry is loaded exactly when it holds a buffer.

Floats are modelled as reals. Each value the hardware random generator would return is a parameter. So is each result of malloc in resource_load and of the PNG decoder. In particle_add, malloc is a counter of fresh addresses.

The code at main/artwork.c:154-155 computes `((int) esp_random()) / (float) INT32_MAX * spread`, which reaches the full spread on either side. `OffsetRange` and `OffsetReachesSpread` state that range under exact real arithmetic.

## Model

| member | source | states |
|---|---|---|
| Artwork.Scale | main/artwork.c:30 | `(draw * max) >> 32` on a 32-bit draw is always below `max` |
| Artwork.RandomVariant | main/artwork.c:26-34 | the variant drawn is a table index in [0, 4); when `not_this` is a table index, the result is never `not_this` |
| Artwork.RandomVariantMonotone | main/artwork.c:28-32 | a larger draw never gives a smaller variant: the draw-to-variant map is monotone |
| Artwork.RandomVariantOnto | main/artwork.c:28-32 | every table index other than `not_this` is reached by some 32-bit draw, with or without an excluded index; so the values drawn are exactly the indices except `not_this` |
| Artwork.PoleColor | main/artwork.c:44-47 | a variant in [0, 4) gets its table colour; the fallback 0xff00ff00 is used exactly when the variant is out of range |
| Artwork.NewVariantChangesColor | main/artwork.c:26-47 | a pole whose variant is redrawn excluding its current one gets a table colour that differs from its current colour |
| Artwork.LifeFraction | main/artwork.c:120 | the fraction is undefined (division by zero) exactly when lifespan is 0 and age at most 0; with lifespan > 0 and age ≥ 0 it lies in [0, 1] and is 0 exactly when age ≥ lifespan |
| Artwork.LifeFractionAtBirth | main/artwork.c:120 | at age 0 the fraction is 1 |
| Artwork.LifeFractionMonotone | main/artwork.c:120 | the fraction never increases with age |
| Particles.Advanced | main/artwork.c:98-107 | one frame ages a particle by exactly 1 and keeps its lifespan and list links |
| Particles.IteratedAges | main/artwork.c:96-110 | after n frames a particle is exactly n frames older and keeps its lifespan, image and tint |
| Particles.FadesWithAge | main/artwork.c:96-120 | as frames pass a particle's life fraction never grows, and it is 0 once the lifespan has passed |
| Types.Dust | main/include/types.h:110-124 | the dust template sits at the given position, unlinked, at rest with no gravity, drag 0.2, image "dust.png", white tint, lifespan 20 and age 0 |
| Particles.DustFades | main/include/types.h:110-124 | a `PARTICLE_DUST` particle has a positive life fraction for exactly its first 20 frames |
| Particles.Signed | main/artwork.c:154-155 | `(int)` of a 32-bit draw is the two's-complement value in [-2^31, 2^31) congruent to the draw mod 2^32 |
| Particles.Offset | main/artwork.c:154-155 | the displacement along one axis; for a positive spread it is non-negative exactly when the draw's sign bit is clear, and a negative spread flips that |
| Particles.OffsetRange | main/artwork.c:154-155 | for a non-negative spread, the displacement lies between `-spread * 2^31 / INT32_MAX` and `spread`; for a negative spread, between `spread` and `-spread * 2^31 / INT32_MAX` |
| Particles.OffsetReachesSpread | main/artwork.c:154-155 | the draw 0x7fffffff displaces by exactly `spread`, so the displacement reaches the full spread |
| Particles.SpreadCopy | main/artwork.c:153-162 | one round's copy is displaced from the template by the two draws' offsets and keeps its lifespan, age, image, drag, gravity, tint and links; when repelling along an axis with non-zero spread its velocity there is twice the drawn fraction, independent of the spread, and otherwise the template's |
| Particles.SpreadFront | main/artwork.c:145-166 | n rounds produce exactly n unlinked copies; each keeps the template's lifespan, age, image, drag, gravity and tint, and keeps its velocity on each axis unless repel is on and that axis's spread is non-zero |
| Particles.PushShape | main/artwork.c:169-180 | pushing a fresh cell keeps the list well linked, adds exactly that cell, and puts its particle in front of the others |
| Particles.UnlinkShape | main/artwork.c:81-93 | unlinking and freeing the cell at position k keeps the list well linked, removes exactly that cell and keeps the others in order |
| Particles.AdvanceShape | main/artwork.c:96-110 | advancing every cell in place keeps the list well linked and advances every particle one frame |
| Particles.ParticleList.constructor | main/artwork.c:6 | the list starts empty with a null head |
| Particles.ParticleList.Add | main/artwork.c:169-180 | the copy becomes the head, with null prev and the old head as next; the list grows by exactly that particle and the old ones keep their order; the invariant holds |
| Particles.ParticleList.Delete | main/artwork.c:81-93 | exactly the given cell is removed and freed and the others keep their order; the head moves to its successor when it was first and stays otherwise; the invariant holds |
| Particles.ParticleList.Clear | main/artwork.c:138-142 | the loop ends with an empty list, a null head and no cells |
| Particles.ParticleList.Render | main/artwork.c:96-110 | every particle is advanced one frame in place (aged by exactly 1); no cell is added or removed and list order, head and links are unchanged |
| Particles.ParticleList.Spread | main/artwork.c:145-166 | exactly `number` copies, as described by SpreadFront, are pushed in front of the old particles, newest first |
| Resources.BuiltinPng | main/resources.c:38-48 | a builtin entry starts unloaded, without a buffer, not long-term, with the given name and data bounds |
| Resources.LoadEntry | main/resources.c:61-87 | on a loaded entry, load returns the existing buffer and changes nothing; with no embedded data nothing is allocated and the entry stays unloaded; a failed allocation or decode returns null with no buffer and not loaded; otherwise the entry is loaded into the new buffer; the result is the entry's buffer, the invariant is preserved, and a non-null result means loaded |
| Resources.UnloadEntry | main/resources.c:90-101 | unload leaves the entry unloaded, without a buffer when it was consistent, and changes nothing on an unloaded entry |
| Resources.LoadAgain | main/resources.c:62 | once a load has returned a buffer, loading again returns the same buffer and changes nothing, whatever malloc and the decoder would do |
| Resources.UnloadIdempotent | main/resources.c:90-101 | unloading twice is the same as unloading once |
| Resources.LoadUnloadRoundTrip | main/resources.c:61-101 | loading an unloaded entry and then unloading it restores the entry exactly, whatever malloc and the decoder do |
| Resources.FindFrom | main/resources.c:104-114 | the index found is the first entry whose filename equals the query; None means no entry matches |
| Resources.ResourceTable.constructor | main/resources.c:53-56 | the table holds exactly one unloaded builtin entry, "dust.png" |
| Resources.ResourceTable.Find | main/resources.c:104-114 | the loop returns the first matching entry's index, or None when no entry matches |
| Resources.ResourceTable.Load | main/resources.c:61-87 | entry i and the returned buffer become what LoadEntry says; every other entry is unchanged |
| Resources.ResourceTable.Unload | main/resources.c:90-101 | entry i becomes what UnloadEntry says; every other entry is unchanged |
| Resources.ResourceTable.GetLong | main/resources.c:117-125 | an unknown name returns null and changes nothing; a found entry is marked long-term, even when loading then fails, and is loaded as LoadEntry says; no other entry changes; the invariant holds |
| Resources.ResourceTable.Get | main/resources.c:128-135 | an unknown name returns null and changes nothing; a found entry is loaded as LoadEntry says and its long-term flag is untouched; no other entry changes; the invariant holds |
| Resources.ResourceTable.MarkFrame | main/resources.c:138-140 | no entry changes |

## Left out

- All drawing through the pax library is left out: the rectangles and outline in `draw_pole`, the texture shading in `draw_particles`, and the float-to-colour tint at main/artwork.c:122. The model keeps only the colour choice and the life fraction.
- Floating-point rounding, NaN and infinities are left out. Positions, velocities, gravity and drag are reals. The one float division that can divide by zero (the life fraction with lifespan 0) is `None`.
- Particles.OffsetRange: the lower bound `-spread * 2^31 / INT32_MAX` holds under exact reals. In C float, `(float) INT32_MAX` rounds to 2^31, so the code's displacement lies in exactly [-spread, spread]; the model does not capture that rounding.
- Particles.Advanced: `age` is an unbounded integer; the 32-bit overflow of `age++` after 2^31 frames is not modelled.
- Particles.ParticleList.Add: malloc never fails here. The source does not check for null, and a bump counter (`brk`) hands out fresh addresses.
- Particles.ParticleList.Delete: `free` is modelled as removing the cell from the heap map. The caller must pass a cell of the list, as the source assumes.
- `esp_random` is not modelled. Each 32-bit draw is a parameter: one for `random_variant`, two per copy for `particle_spread`.
- The clearing of bit 0 in `spreading` (main/artwork.c:147) is left out. No other spread mode exists, so it has no effect.
- The variant table's `filename` field is unused by the modelled code and is always null.
- Resources.ResourceTable.Load: what malloc returns and whether `pax_decode_png_buf` succeeds are the parameters `mem` and `decoded`. The PNG data itself is not modelled.
- Resources.ResourceTable.Unload: `pax_buf_destroy` and `free` are not modelled; the buffer pointer is only cleared.
- `ESP_LOGI` logging is left out.
- The `prev`/`next` fields of `struct rsrc` are never used by the source and are left out.
- An entry pointer (`rsrc_t *`) is modelled as an index into `builtins`, and null as `None`.
- The linker-symbol addresses of the embedded `dust.png` are constructor parameters.
- main.c is not part of this model: hardware set-up, the display, Wi-Fi, the menu and event loop.
- Pole physics, collision, scoring, difficulty and high scores are not part of this model. They are only declared in main/include/main.h.
