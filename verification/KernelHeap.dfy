/** The kernel allocator as the driver sees it (krealloc, kfree), with every block accounted for. */
module KernelHeap {
  import opened CTypes

  function Addresses(p: Pointer): set<nat> {
    match p
    case Null => {}
    case At(a) => {a}
  }

  class Heap {
    var live: map<nat, seq<byte>>  // the allocated blocks, by address
    var freed: set<nat>            // the addresses given back
    var issued: nat                // addresses are handed out once each, in this order

    ghost predicate Valid()
      reads this
    {
      && (forall a | a in live :: a < issued && a !in freed)
      && (forall a | a in freed :: a < issued)
      && (forall a: nat | a < issued :: a in live || a in freed)
    }

    constructor ()
      ensures Valid() && live == map[] && freed == {}
    {
      live, freed, issued := map[], {}, 0;
    }

    /** Resize (or obtain) a block: the bytes that fit are kept and new ones are arbitrary. The block
        may move, which gives the old address back. */
    method Krealloc(p: Pointer, size: nat) returns (q: Pointer)
      requires Valid()
      requires p.At? ==> p.address in live
      modifies this
      ensures Valid()
      ensures q.At? && q.address in live && |live[q.address]| == size
      ensures q == p || (q.address !in old(live) && q.address !in old(freed))
      ensures p.At? ==> Take(old(live[p.address]), size) <= live[q.address]
      ensures live.Keys == old(live.Keys) - Addresses(p) + {q.address}
      ensures forall a | a in live && a != q.address :: live[a] == old(live[a])
      ensures freed == old(freed) + (if q == p then {} else Addresses(p))
    {
      var inPlace: bool := *;
      var kept := if p.At? then Take(live[p.address], size) else [];
      var bytes := kept + seq(size - |kept|, _ => NUL);
      if p.At? && inPlace {
        q := p;
        live := live[p.address := bytes];
      } else {
        var a := issued;
        live := (live - Addresses(p))[a := bytes];
        freed, issued := freed + Addresses(p), issued + 1;
        q := At(a);
      }
    }

    /** Give a block back. A block can be given back once only. */
    method Kfree(a: nat)
      requires Valid() && a in live
      modifies this
      ensures Valid()
      ensures live == old(live) - {a} && freed == old(freed) + {a}
    {
      live, freed := live - {a}, freed + {a};
    }

    /** Copy bytes into a block. */
    method Store(a: nat, offset: nat, data: seq<byte>)
      requires Valid() && a in live && offset + |data| <= |live[a]|
      modifies this
      ensures Valid() && freed == old(freed)
      ensures live == old(live)[a := old(live[a])[..offset] + data + old(live[a])[offset + |data|..]]
    {
      live := live[a := live[a][..offset] + data + live[a][offset + |data|..]];
    }
  }
}
