/** `ScTemplateNamedStruct`, the result of one template search or generation. */
module NamedStructs {
  import opened ScGraph
  import opened Permutation

  class NamedStruct {
    var names: map<string, nat>
    var elements: seq<Addr>

    constructor ()
      ensures names == map[] && elements == [] && Valid()
    {
      names, elements := map[], [];
    }

    ghost predicate Valid()
      reads this
    {
      Distinct(elements) && forall n :: n in names ==> names[n] < |elements|
    }

    predicate Has(name: string)
      reads this
    {
      name in names
    }

    /** `operator []`: the empty address when the name is unknown. */
    function Lookup(name: string): Addr
      requires Valid()
      reads this
    {
      if name in names then elements[names[name]] else EMPTY
    }

    method Clear()
      modifies this
      ensures names == map[] && elements == [] && Valid()
    {
      names, elements := map[], [];
    }
  }

  /** `ScTemplateNamedStruct::Builder`: fills a structure, storing every address once. */
  class Builder {
    const struct: NamedStruct
    var addrs: map<Addr, nat>

    constructor (inStruct: NamedStruct)
      modifies inStruct
      ensures struct == inStruct && Valid()
      ensures struct.names == map[] && struct.elements == []
    {
      struct := inStruct;
      addrs := map[];
      new;
      struct.Clear();
    }

    /** The address table is the inverse of the element list. */
    ghost predicate Valid()
      reads this, struct
    {
      && struct.Valid()
      && (forall a :: a in addrs <==> a in struct.elements)
      && (forall a :: a in addrs ==> addrs[a] < |struct.elements| && struct.elements[addrs[a]] == a)
    }

    method AddAddr(addr: Addr)
      requires Valid()
      modifies this, struct
      ensures Valid() && struct.names == old(struct.names)
      ensures forall n :: struct.Lookup(n) == old(struct.Lookup(n))
      ensures old(struct.elements) <= struct.elements
      ensures forall a :: a in struct.elements <==> a == addr || a in old(struct.elements)
    {
      if addr !in addrs {
        addrs := addrs[addr := |struct.elements|];
        struct.elements := struct.elements + [addr];
      }
    }

    /** Fails, changing nothing, if the name exists. */
    method Add(name: string, addr: Addr) returns (ok: bool)
      requires Valid()
      modifies this, struct
      ensures ok <==> name !in old(struct.names)
      ensures !ok ==> struct.names == old(struct.names) && struct.elements == old(struct.elements)
      ensures Valid() && old(struct.elements) <= struct.elements
      ensures ok ==>
        && struct.names.Keys == old(struct.names.Keys) + {name}
        && (forall n :: n != name ==> struct.Lookup(n) == old(struct.Lookup(n)))
        && struct.Lookup(name) == addr
        && (forall a :: a in struct.elements <==> a == addr || a in old(struct.elements))
    {
      if name in struct.names {
        return false;
      }
      if addr !in addrs {
        struct.names := struct.names[name := |struct.elements|];
        addrs := addrs[addr := |struct.elements|];
        struct.elements := struct.elements + [addr];
      } else {
        struct.names := struct.names[name := addrs[addr]];
      }
      return true;
    }
  }
}
