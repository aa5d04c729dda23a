/**
 * The resource cache of main/resources.c: a static table of embedded
 * resources, each loaded on demand into a decoded image buffer.
 *
 * Buffers are `Ptr`s. What malloc returns and whether the PNG decoder
 * succeeds are not visible here; they are the `mem` and `decoded`
 * parameters of the operations that would call them.
 */
module Resources {
  import opened Types

  /** One entry of the table (struct rsrc), without its unused list links. */
  datatype Rsrc = Rsrc(
    buf: Ptr,
    loaded: bool,
    longTerm: bool,
    filename: string,
    builtin: bool,
    start: Ptr,
    end: Ptr)

  /** The cache invariant: an entry is loaded exactly when it holds a buffer. */
  predicate Consistent(e: Rsrc)
  {
    e.loaded <==> e.buf != Null
  }

  /** Whether the entry has embedded data to decode. */
  predicate HasData(e: Rsrc)
  {
    e.start != Null && e.end != Null
  }

  /** The fields that neither loading nor unloading touches. */
  predicate SameLocation(e: Rsrc, f: Rsrc)
  {
    e.longTerm == f.longTerm && e.filename == f.filename && e.builtin == f.builtin
    && e.start == f.start && e.end == f.end
  }

  /** A fresh, unloaded builtin PNG entry (RSRC_BUILTIN_PNG). */
  function BuiltinPng(name: string, start: Ptr, end: Ptr): (e: Rsrc)
    ensures Consistent(e) && !e.loaded && !e.longTerm && e.builtin
    ensures e.filename == name && e.start == start && e.end == end
  {
    Rsrc(Null, false, false, name, true, start, end)
  }

  /**
   * resource_load on one entry: the entry afterwards and the buffer
   * returned. `mem` is what malloc returns, `decoded` whether the PNG
   * decoder succeeds.
   */
  function LoadEntry(e: Rsrc, mem: Ptr, decoded: bool): (res: (Rsrc, Ptr))
    ensures res.1 == res.0.buf && SameLocation(e, res.0)
    ensures Consistent(e) ==> Consistent(res.0) && (res.1 != Null <==> res.0.loaded)
    // An entry already loaded is returned as it is.
    ensures e.loaded ==> res == (e, e.buf)
    // Without embedded data nothing is allocated and the entry stays unloaded.
    ensures !e.loaded && !HasData(e) ==> res.0 == e && !res.0.loaded
    // A failed allocation or decode leaves no buffer behind.
    ensures !e.loaded && HasData(e) && (mem == Null || !decoded) ==>
      res.1 == Null && !res.0.loaded && res.0 == e.(buf := Null)
    // Otherwise the entry is loaded into the allocated buffer.
    ensures !e.loaded && HasData(e) && mem != Null && decoded ==>
      res.1 == mem && res.0.loaded
  {
    if e.loaded then (e, e.buf)
    else if HasData(e) then
      if mem == Null || !decoded then (e.(buf := Null), Null)
      else (e.(buf := mem, loaded := true), mem)
    else (e.(loaded := false), e.buf)
  }

  /** resource_unload on one entry. */
  function UnloadEntry(e: Rsrc): (u: Rsrc)
    ensures !u.loaded && SameLocation(e, u)
    ensures e.loaded ==> u.buf == Null
    ensures Consistent(e) ==> Consistent(u) && u.buf == Null
    ensures !e.loaded ==> u == e
  {
    if e.loaded then e.(loaded := false, buf := Null) else e
  }

  /** Once a load has produced a buffer, loading again returns it and changes nothing. */
  lemma LoadAgain(e: Rsrc, mem: Ptr, decoded: bool, mem2: Ptr, decoded2: bool)
    requires Consistent(e)
    requires LoadEntry(e, mem, decoded).1 != Null
    ensures LoadEntry(LoadEntry(e, mem, decoded).0, mem2, decoded2) == LoadEntry(e, mem, decoded)
  {
  }

  /** Unloading twice is the same as unloading once. */
  lemma UnloadIdempotent(e: Rsrc)
    ensures UnloadEntry(UnloadEntry(e)) == UnloadEntry(e)
  {
  }

  /** Loading an unloaded entry and unloading it again restores the entry, whatever the oracles say. */
  lemma LoadUnloadRoundTrip(e: Rsrc, mem: Ptr, decoded: bool)
    requires Consistent(e) && !e.loaded
    ensures UnloadEntry(LoadEntry(e, mem, decoded).0) == e
  {
  }

  /** The index of the first entry from `k` on whose filename is `name`. */
  function FindFrom(table: seq<Rsrc>, name: string, k: nat): (r: Option<nat>)
    decreases |table| - k
    ensures r.Some? ==> k <= r.value < |table| && table[r.value].filename == name
    ensures r.Some? ==> forall j :: k <= j < r.value ==> table[j].filename != name
    ensures r.None? ==> forall j :: k <= j < |table| ==> table[j].filename != name
  {
    if k >= |table| then None
    else if table[k].filename == name then Some(k)
    else FindFrom(table, name, k + 1)
  }

  /** The static `builtins` table. */
  class ResourceTable {
    var builtins: array<Rsrc>

    ghost predicate Valid()
      reads this, builtins
    {
      forall i :: 0 <= i < builtins.Length ==> Consistent(builtins[i])
    }

    /** The table as shipped: one embedded "dust.png", between linker symbols `dustStart` and `dustEnd`. */
    constructor (dustStart: nat, dustEnd: nat)
      ensures Valid() && fresh(builtins)
      ensures builtins[..] == [BuiltinPng("dust.png", At(dustStart), At(dustEnd))]
    {
      builtins := new Rsrc[1] [BuiltinPng("dust.png", At(dustStart), At(dustEnd))];
    }

    /** resource_find: the first entry named `filename`, or None. */
    method Find(filename: string) returns (r: Option<nat>)
      ensures r == FindFrom(builtins[..], filename, 0)
      ensures r.Some? ==> r.value < builtins.Length && builtins[r.value].filename == filename
      ensures r.None? ==> forall j :: 0 <= j < builtins.Length ==> builtins[j].filename != filename
    {
      for i := 0 to builtins.Length
        invariant FindFrom(builtins[..], filename, i) == FindFrom(builtins[..], filename, 0)
      {
        if builtins[i].filename == filename {
          return Some(i);
        }
      }
      return None;
    }

    /** resource_load on entry `i`. */
    method Load(i: nat, mem: Ptr, decoded: bool) returns (r: Ptr)
      requires i < builtins.Length
      modifies builtins
      ensures (builtins[i], r) == LoadEntry(old(builtins[i]), mem, decoded)
      ensures forall j :: 0 <= j < builtins.Length && j != i ==> builtins[j] == old(builtins[j])
    {
      if builtins[i].loaded {
        return builtins[i].buf;
      }
      if builtins[i].start != Null && builtins[i].end != Null {
        builtins[i] := builtins[i].(buf := mem);
        if builtins[i].buf == Null {
          return Null;
        }
        if !decoded {
          builtins[i] := builtins[i].(buf := Null);
        } else {
          builtins[i] := builtins[i].(loaded := true);
        }
      } else {
        builtins[i] := builtins[i].(loaded := false);
      }
      r := builtins[i].buf;
    }

    /** resource_unload on entry `i`; destroying and freeing the buffer is not modelled. */
    method Unload(i: nat)
      requires i < builtins.Length
      modifies builtins
      ensures builtins[i] == UnloadEntry(old(builtins[i]))
      ensures forall j :: 0 <= j < builtins.Length && j != i ==> builtins[j] == old(builtins[j])
    {
      if builtins[i].loaded {
        builtins[i] := builtins[i].(loaded := false);
        builtins[i] := builtins[i].(buf := Null);
      }
    }

    /** resource_get_long: marks the entry long-term, then loads it. */
    method GetLong(filename: string, mem: Ptr, decoded: bool) returns (r: Ptr)
      requires Valid()
      modifies builtins
      ensures Valid()
      ensures FindFrom(old(builtins[..]), filename, 0).None? ==> r == Null && builtins[..] == old(builtins[..])
      ensures FindFrom(old(builtins[..]), filename, 0).Some? ==>
        var i := FindFrom(old(builtins[..]), filename, 0).value;
        && builtins[i].longTerm
        && (builtins[i], r) == LoadEntry(old(builtins[i]).(longTerm := true), mem, decoded)
        && forall j :: 0 <= j < builtins.Length && j != i ==> builtins[j] == old(builtins[j])
    {
      var found := Find(filename);
      if found.Some? {
        var i := found.value;
        builtins[i] := builtins[i].(longTerm := true);
        r := Load(i, mem, decoded);
      } else {
        r := Null;
      }
    }

    /** resource_get: loads the entry without touching its long-term flag. */
    method Get(filename: string, mem: Ptr, decoded: bool) returns (r: Ptr)
      requires Valid()
      modifies builtins
      ensures Valid()
      ensures FindFrom(old(builtins[..]), filename, 0).None? ==> r == Null && builtins[..] == old(builtins[..])
      ensures FindFrom(old(builtins[..]), filename, 0).Some? ==>
        var i := FindFrom(old(builtins[..]), filename, 0).value;
        && builtins[i].longTerm == old(builtins[i].longTerm)
        && (builtins[i], r) == LoadEntry(old(builtins[i]), mem, decoded)
        && forall j :: 0 <= j < builtins.Length && j != i ==> builtins[j] == old(builtins[j])
    {
      var found := Find(filename);
      if found.Some? {
        r := Load(found.value, mem, decoded);
      } else {
        r := Null;
      }
    }

    /** resource_mark_frame: an empty hook; no entry changes. */
    method MarkFrame()
      ensures builtins[..] == old(builtins[..])
    {
    }
  }
}
