/** Objects in memory and the graph their slots span. */
module Memory {
  import opened Constants
  import opened Header
  import opened Space
  import opened Layout

  /** An object: its header, its size as `object_size` reports it, the references that
      `visit_references` reports, and everything else it holds. */
  datatype Object = Object(header: Header<Address>, size: nat, slots: seq<Address>, payload: int)

  type Memory = map<Address, Object>

  function Sizes(mem: Memory): Extents { map a | a in mem :: mem[a].size }

  /** Every slot refers to an object. */
  ghost predicate Closed(mem: Memory) {
    forall a, i :: a in mem && 0 <= i < |mem[a].slots| ==> mem[a].slots[i] in mem
  }

  /** A path of slots from one of the `roots` to its last object. */
  ghost predicate IsPath(mem: Memory, roots: set<Address>, path: seq<Address>) {
    && |path| > 0 && path[0] in roots
    && (forall k :: 0 <= k < |path| ==> path[k] in mem)
    && (forall k :: 0 < k < |path| ==> path[k] in mem[path[k - 1]].slots)
  }

  ghost predicate Reachable(mem: Memory, roots: set<Address>, a: Address) {
    exists path :: IsPath(mem, roots, path) && path[|path| - 1] == a
  }

  ghost function ReachableSet(mem: Memory, roots: set<Address>): set<Address> {
    set a | a in mem && Reachable(mem, roots, a)
  }

  /** A set of objects that no slot leads out of. */
  ghost predicate Saturated(mem: Memory, s: set<Address>) {
    forall a, i :: a in s && a in mem && 0 <= i < |mem[a].slots| ==> mem[a].slots[i] in s
  }

  /** What is reachable is saturated. */
  lemma ReachableIsSaturated(mem: Memory, roots: set<Address>)
    requires Closed(mem)
    ensures Saturated(mem, ReachableSet(mem, roots))
  {
    forall a, i | a in ReachableSet(mem, roots) && a in mem && 0 <= i < |mem[a].slots|
      ensures mem[a].slots[i] in ReachableSet(mem, roots)
    {
      var path :| IsPath(mem, roots, path) && path[|path| - 1] == a;
      var longer := path + [mem[a].slots[i]];
      assert IsPath(mem, roots, longer) && longer[|longer| - 1] == mem[a].slots[i];
    }
  }

  lemma RootsAreReachable(mem: Memory, roots: set<Address>)
    requires roots <= mem.Keys
    ensures roots <= ReachableSet(mem, roots)
  {
    forall r | r in roots ensures Reachable(mem, roots, r) {
      assert IsPath(mem, roots, [r]) && [r][|[r]| - 1] == r;
    }
  }

  /** Follows slots by number, as a mutator does; `None` if a number is out of range. */
  function Follow(mem: Memory, a: Address, route: seq<nat>): Option<Address>
    decreases |route|
  {
    if a !in mem then None
    else if route == [] then Some(a)
    else if route[0] >= |mem[a].slots| then None
    else Follow(mem, mem[a].slots[route[0]], route[1..])
  }

  /** Following a route in two parts. */
  lemma {:induction false} FollowAppend(mem: Memory, a: Address, u: seq<nat>, w: seq<nat>)
    ensures Follow(mem, a, u + w) == match Follow(mem, a, u) case None => None case Some(x) => Follow(mem, x, w)
    decreases |u|
  {
    if u == [] {
      assert u + w == w;
    } else if a in mem && u[0] < |mem[a].slots| {
      assert (u + w)[1..] == u[1..] + w;
      FollowAppend(mem, mem[a].slots[u[0]], u[1..], w);
    }
  }

  function SizeOf(ext: Extents, a: Address): nat { if a in ext then ext[a] else 0 }

  lemma HasElement(s: set<Address>)
    ensures s == {} || exists a :: a in s
  {
    if forall a :: a !in s { assert s == {}; }
  }

  /** The bytes of a set of objects. */
  ghost function Bytes(ext: Extents, s: set<Address>): nat {
    if s == {} then 0 else
    HasElement(s);
    var a :| a in s;
    SizeOf(ext, a) + Bytes(ext, s - {a})
  }

  lemma {:induction false} BytesMinus(ext: Extents, s: set<Address>, a: Address)
    requires a in s
    ensures Bytes(ext, s) == SizeOf(ext, a) + Bytes(ext, s - {a})
    decreases s
  {
    var b :| b in s && Bytes(ext, s) == SizeOf(ext, b) + Bytes(ext, s - {b});
    if a != b {
      BytesMinus(ext, s - {b}, a);
      BytesMinus(ext, s - {a}, b);
      assert s - {b} - {a} == s - {a} - {b};
    }
  }

  lemma BytesPlus(ext: Extents, s: set<Address>, a: Address)
    requires a !in s
    ensures Bytes(ext, s + {a}) == Bytes(ext, s) + SizeOf(ext, a)
  {
    BytesMinus(ext, s + {a}, a);
    assert s + {a} - {a} == s;
  }

  lemma {:induction false} BytesSame(ext: Extents, ext': Extents, s: set<Address>)
    requires forall a :: a in s ==> SizeOf(ext', a) == SizeOf(ext, a)
    ensures Bytes(ext', s) == Bytes(ext, s)
    decreases s
  {
    if s != {} {
      HasElement(s);
      var a :| a in s && Bytes(ext, s) == SizeOf(ext, a) + Bytes(ext, s - {a});
      BytesMinus(ext', s, a);
      BytesSame(ext, ext', s - {a});
    }
  }
}
