/** The object cache: freed buffers go on a stack, which grows as needed, and are handed out again from
    its top. Each operation runs under the lock, so it is one step. The build is the one without red
    zones. */
module MemcachedCache {
  import opened Common

  const INITIAL_POOL_SIZE := 64

  /** A block of memory from `malloc`; each call makes a new one. */
  class Buffer {
    constructor () {
    }
  }

  // ---------------------------------------------------------------------------------------
  // Where the buffers are
  // ---------------------------------------------------------------------------------------

  /** Each buffer ever made is in exactly one place: once on the stack, with a user, or released. */
  ghost predicate Accounted(made: set<Buffer>, stack: seq<Buffer>, handed: set<Buffer>, released: set<Buffer>) {
    && (forall i, j :: 0 <= i < j < |stack| ==> stack[i] != stack[j])
    && (forall b :: b in stack ==> b in made && b !in handed && b !in released)
    && handed !! released && handed <= made && released <= made
    && (forall b :: b in made ==> b in stack || b in handed || b in released)
  }

  lemma PopAccounted(made: set<Buffer>, stack: seq<Buffer>, handed: set<Buffer>, released: set<Buffer>)
    requires Accounted(made, stack, handed, released) && stack != []
    ensures var rest, top := stack[..|stack| - 1], stack[|stack| - 1];
            && Accounted(made, rest, handed + {top}, released)
            && Accounted(made, rest, handed, released + {top})
  {
    assert stack == stack[..|stack| - 1] + [stack[|stack| - 1]];
  }

  lemma PushAccounted(made: set<Buffer>, stack: seq<Buffer>, handed: set<Buffer>, released: set<Buffer>, b: Buffer)
    requires Accounted(made, stack, handed, released) && b in handed
    ensures Accounted(made, stack + [b], handed - {b}, released)
    ensures Accounted(made, stack, handed - {b}, released + {b})
  {
  }

  lemma MakeAccounted(made: set<Buffer>, stack: seq<Buffer>, handed: set<Buffer>, released: set<Buffer>, b: Buffer)
    requires Accounted(made, stack, handed, released) && b !in made
    ensures Accounted(made + {b}, stack, handed + {b}, released)
    ensures Accounted(made + {b}, stack, handed, released + {b})
  {
  }

  class Cache {
    const hasConstructor: bool
    const hasDestructor: bool
    var ptr: array<Buffer?>
    var freetotal: nat
    var freecurr: nat
    ghost var stack: seq<Buffer>
    ghost var made: set<Buffer>
    ghost var handed: set<Buffer>
    /** Buffers that went to `free`. */
    ghost var released: set<Buffer>
    /** Buffers that went through the destructor, in order. */
    var destroyed: seq<Buffer>

    ghost predicate Valid()
      reads this, ptr
    {
      && 0 < freetotal == ptr.Length && freecurr == |stack| <= freetotal
      && (forall i :: 0 <= i < freecurr ==> ptr[i] == stack[i])
      && Accounted(made, stack, handed, released)
    }

    /** `cache_create` where its own allocations succeed. */
    constructor (hasConstructor: bool, hasDestructor: bool)
      ensures Valid() && fresh(ptr) && stack == [] && made == {} && destroyed == []
      ensures this.hasConstructor == hasConstructor && this.hasDestructor == hasDestructor
    {
      this.hasConstructor, this.hasDestructor := hasConstructor, hasDestructor;
      ptr := new Buffer?[INITIAL_POOL_SIZE](_ => null);
      freetotal, freecurr := INITIAL_POOL_SIZE, 0;
      stack, made, handed, released, destroyed := [], {}, {}, {}, [];
    }

    /** `free`; a buffer is never released twice. */
    ghost method Release(b: Buffer)
      requires b in made && b !in released && b !in handed && b !in stack
      modifies this`released
      ensures released == old(released) + {b}
    {
      released := released + {b};
    }

    /** Hands out the buffer freed last, or a new one. `memory` and `constructs` say whether `malloc` and
        the constructor succeed. */
    method Alloc(memory: bool, constructs: bool) returns (b: Buffer?)
      requires Valid()
      modifies this
      ensures Valid() && ptr == old(ptr) && destroyed == old(destroyed)
      ensures b != null ==> b !in old(handed) && handed == old(handed) + {b}
      ensures b == null ==> handed == old(handed)
      ensures old(stack) != [] ==>
                && b == old(stack)[|old(stack)| - 1] && stack == old(stack)[..|old(stack)| - 1]
                && released == old(released) && made == old(made)
      ensures old(stack) == [] ==>
                && stack == [] && fresh(made - old(made))
                && (b != null <==> memory && (hasConstructor ==> constructs))
                && released == if b == null then old(released) + (made - old(made)) else old(released)
    {
      if freecurr > 0 {
        PopAccounted(made, stack, handed, released);
        freecurr := freecurr - 1;
        b := ptr[freecurr];
        handed := handed + {stack[freecurr]};
        stack := stack[..freecurr];
      } else {
        b := null;
        if memory {
          var buffer := new Buffer();
          MakeAccounted(made, stack, handed, released, buffer);
          made := made + {buffer};
          if hasConstructor && !constructs {
            Release(buffer);
          } else {
            b := buffer;
            handed := handed + {buffer};
          }
        }
      }
    }

    /** Takes a buffer back. If the stack is full and cannot be enlarged, the buffer is destroyed. */
    method Free(b: Buffer, memory: bool)
      requires Valid() && b in handed
      modifies this, ptr
      ensures Valid() && (ptr == old(ptr) || fresh(ptr)) && made == old(made) && handed == old(handed) - {b}
      ensures var kept := |old(stack)| < old(freetotal) || memory;
              && stack == (if kept then old(stack) + [b] else old(stack))
              && released == (if kept then old(released) else old(released) + {b})
              && destroyed == (if kept || !hasDestructor then old(destroyed) else old(destroyed) + [b])
    {
      PushAccounted(made, stack, handed, released, b);
      if freecurr < freetotal {
        ptr[freecurr] := b;
        freecurr := freecurr + 1;
        handed, stack := handed - {b}, stack + [b];
      } else if memory {
        Enlarge();
        ptr[freecurr] := b;
        freecurr := freecurr + 1;
        handed, stack := handed - {b}, stack + [b];
      } else {
        if hasDestructor {
          destroyed := destroyed + [b];
        }
        handed := handed - {b};
        Release(b);
      }
    }

    /** `realloc` to twice the size keeps what is in the array. */
    method Enlarge()
      requires Valid()
      modifies this`ptr, this`freetotal
      ensures Valid() && fresh(ptr) && freetotal == 2 * old(freetotal)
    {
      var larger := new Buffer?[2 * freetotal](_ => null);
      for i := 0 to freetotal
        invariant forall j :: 0 <= j < i ==> larger[j] == ptr[j]
        modifies larger
      {
        larger[i] := ptr[i];
      }
      ptr, freetotal := larger, 2 * freetotal;
    }

    /** Releases every buffer on the stack, from its top, and nothing else. */
    method Destroy()
      requires Valid()
      modifies this
      ensures Valid() && stack == [] && made == old(made) && handed == old(handed)
      ensures released == old(released) + (set b | b in old(stack))
      ensures destroyed == if hasDestructor then old(destroyed) + Reversed(old(stack)) else old(destroyed)
    {
      ghost var gone: seq<Buffer> := [];
      while freecurr > 0
        invariant Valid() && made == old(made) && handed == old(handed)
        invariant stack + gone == old(stack)
        invariant released == old(released) + (set b | b in gone)
        invariant destroyed == if hasDestructor then old(destroyed) + Reversed(gone) else old(destroyed)
        decreases freecurr
      {
        ghost var top := stack[freecurr - 1];
        DestroyTop();
        assert stack + ([top] + gone) == old(stack);
        assert ([top] + gone)[1..] == gone;
        gone := [top] + gone;
      }
      assert gone == old(stack);
    }

    method DestroyTop()
      requires Valid() && freecurr > 0
      modifies this
      ensures Valid() && ptr == old(ptr) && made == old(made) && handed == old(handed)
      ensures stack == old(stack)[..|old(stack)| - 1] && freecurr < old(freecurr)
      ensures var top := old(stack)[|old(stack)| - 1];
              && released == old(released) + {top}
              && destroyed == if hasDestructor then old(destroyed) + [top] else old(destroyed)
    {
      PopAccounted(made, stack, handed, released);
      freecurr := freecurr - 1;
      var b := ptr[freecurr];
      if hasDestructor {
        destroyed := destroyed + [b];
      }
      assert b == stack[freecurr];
      stack := stack[..freecurr];
      Release(b);
    }

    /** Frees buffers one after the other, with room for all of them. */
    method FreeAll(bs: seq<Buffer>)
      requires Valid() && (forall b :: b in bs ==> b in handed)
      requires forall i, j :: 0 <= i < j < |bs| ==> bs[i] != bs[j]
      modifies this, ptr
      ensures Valid() && (ptr == old(ptr) || fresh(ptr)) && released == old(released)
      ensures stack == old(stack) + bs
    {
      for i := 0 to |bs|
        invariant Valid() && (ptr == old(ptr) || fresh(ptr)) && released == old(released)
        invariant stack == old(stack) + bs[..i]
        invariant forall j :: i <= j < |bs| ==> bs[j] in handed
      {
        Free(bs[i], true);
        assert bs[..i + 1] == bs[..i] + [bs[i]];
      }
      assert bs[..|bs|] == bs;
    }

    /** Asks for the buffers on top of the stack, as many as there are in `bs`. */
    method AllocAll(n: nat, ghost below: seq<Buffer>, ghost bs: seq<Buffer>) returns (out: seq<Buffer>)
      requires Valid() && stack == below + bs && n == |bs|
      modifies this
      ensures Valid() && ptr == old(ptr) && released == old(released)
      ensures stack == below && out == Reversed(bs)
    {
      out := [];
      assert bs[n..] == [] && bs[..n] == bs;
      for i := n downto 0
        invariant Valid() && ptr == old(ptr) && released == old(released)
        invariant stack == below + bs[..i]
        invariant out == Reversed(bs[i..])
      {
        assert bs[..i + 1] == bs[..i] + [bs[i]];
        assert bs[i..][1..] == bs[i + 1..];
        var b := Alloc(true, true);
        out := out + [b];
      }
      assert bs[0..] == bs && below + bs[..0] == below;
    }

    /** Buffers freed one after the other come back last first, as long as the stack can be enlarged. */
    method FreeAndAllocAgain(bs: seq<Buffer>) returns (out: seq<Buffer>)
      requires Valid() && (forall b :: b in bs ==> b in handed)
      requires forall i, j :: 0 <= i < j < |bs| ==> bs[i] != bs[j]
      modifies this, ptr
      ensures Valid() && stack == old(stack) && released == old(released)
      ensures out == Reversed(bs)
    {
      FreeAll(bs);
      out := AllocAll(|bs|, old(stack), bs);
    }
  }

  /** `cache_create`: no cache if it cannot be allocated. */
  method CacheCreate(hasConstructor: bool, hasDestructor: bool, memory: bool) returns (cache: Cache?)
    ensures cache != null <==> memory
    ensures cache != null ==> fresh(cache) && fresh(cache.ptr) && cache.Valid() && cache.stack == [] && cache.made == {}
  {
    if !memory {
      return null;
    }
    cache := new Cache(hasConstructor, hasDestructor);
  }

  // ---------------------------------------------------------------------------------------
  // Runs
  // ---------------------------------------------------------------------------------------

  /** What a well-behaved user does: ask for a buffer, or give back one it holds. */
  datatype Operation = Ask(memory: bool, constructs: bool) | GiveBack(index: nat, memory: bool)

  predicate NoRepeats(held: seq<Buffer>) {
    forall i, j :: 0 <= i < j < |held| ==> held[i] != held[j]
  }

  /** The user holds exactly the buffers that are handed out, each once. */
  ghost predicate Holds(held: seq<Buffer>, handed: set<Buffer>) {
    NoRepeats(held) && (forall b :: b in held ==> b in handed) && (forall b :: b in handed ==> b in held)
  }

  lemma HoldsWithout(held: seq<Buffer>, handed: set<Buffer>, i: nat)
    requires Holds(held, handed) && i < |held|
    ensures Holds(held[..i] + held[i + 1..], handed - {held[i]})
  {
    var rest := held[..i] + held[i + 1..];
    assert held == held[..i] + [held[i]] + held[i + 1..];
    assert forall k :: 0 <= k < |rest| ==> rest[k] == held[if k < i then k else k + 1];
  }

  /** Over every run, with any failures of `malloc`, `realloc` and the constructor, no buffer is with the
      user twice, and none is lost. */
  method Run(cache: Cache, ops: seq<Operation>) returns (held: seq<Buffer>)
    requires cache.Valid() && cache.handed == {}
    modifies cache, cache.ptr
    ensures cache.Valid() && Holds(held, cache.handed)
  {
    held := [];
    for i := 0 to |ops|
      invariant cache.Valid() && (cache.ptr == old(cache.ptr) || fresh(cache.ptr)) && Holds(held, cache.handed)
    {
      match ops[i]
      case Ask(memory, constructs) =>
        var b := cache.Alloc(memory, constructs);
        if b != null {
          held := held + [b];
        }
      case GiveBack(index, memory) =>
        if index < |held| {
          HoldsWithout(held, cache.handed, index);
          cache.Free(held[index], memory);
          held := held[..index] + held[index + 1..];
        }
    }
  }
}
