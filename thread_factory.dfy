/**
 * ThreadFactoryImpl: names the threads it creates "<id>:<n>", where n is an
 * AtomicInteger that starts at 1 and is advanced by every call. Creating the
 * thread itself and choosing its thread group are left out; `issued` records
 * the names handed out so far.
 */
module Threads {
  import opened Wrappers
  import opened JavaText

  /** The name of the thread made by the k-th call (k from 1): the counter is a
      Java `int`, so after 2^31 - 1 it wraps to negative numbers. */
  function NameOf(id: string, k: int): string {
    id + ":" + IntToDecimal(Wrap32(k))
  }

  /** Every name starts with the factory's id and a colon. */
  lemma NameHasPrefix(id: string, k: int)
    ensures |NameOf(id, k)| > |id| + 1
    ensures NameOf(id, k)[..|id| + 1] == id + ":"
  {
    var name := NameOf(id, k);
    assert name == (id + ":") + IntToDecimal(Wrap32(k));
  }

  /** Any 2^32 consecutive calls of one factory produce pairwise distinct names. */
  lemma NamesDistinct(id: string, j: int, k: int)
    requires j < k < j + 0x1_0000_0000
    ensures NameOf(id, j) != NameOf(id, k)
  {
    if NameOf(id, j) == NameOf(id, k) {
      var dj, dk := IntToDecimal(Wrap32(j)), IntToDecimal(Wrap32(k));
      assert (id + ":") + dj == (id + ":") + dk;
      assert dj == ((id + ":") + dj)[|id| + 1..];
      assert dk == ((id + ":") + dk)[|id| + 1..];
      DecimalInjective(Wrap32(j), Wrap32(k));
      assert false;
    }
  }

  /** The counter wraps: call 2^32 + 1 repeats the name of call 1. */
  lemma NamesRepeatAfterWrap(id: string)
    ensures NameOf(id, 0x1_0000_0001) == NameOf(id, 1)
  {
    WrapCongruent(0x1_0000_0001, 1, 1);
  }

  class ThreadFactoryImpl {
    /** id_, fixed at construction. */
    const id: string
    /** threadNbr_. */
    var threadNbr: int
    /** The names handed out so far, oldest first. */
    ghost var issued: seq<string>

    /** The counter is one past the number of names issued, and the k-th name is NameOf(id, k). */
    ghost predicate Valid()
      reads this
    {
      threadNbr == Wrap32(|issued| + 1) &&
      forall k :: 0 <= k < |issued| ==> issued[k] == NameOf(id, k + 1)
    }

    /** ThreadFactoryImpl(String): the counter starts at 1. */
    constructor(id: string)
      ensures this.id == id && threadNbr == 1 && issued == []
      ensures Valid()
    {
      this.id := id;
      threadNbr := 1;
      issued := [];
    }

    /** newThread(Runnable): the name is the id, a colon and the counter, which
        getAndIncrement advances by one with `int` wrap-around. */
    method NewThread() returns (name: string)
      modifies this
      ensures name == id + ":" + IntToDecimal(old(threadNbr))
      ensures threadNbr == Wrap32(old(threadNbr) + 1)
      ensures issued == old(issued) + [name]
      ensures old(Valid()) ==> Valid() && name == NameOf(id, |issued|)
    {
      name := id + ":" + IntToDecimal(threadNbr);
      if Valid() {
        WrapAffine(threadNbr, |issued| + 1, 1, 1);
      }
      threadNbr := Wrap32(threadNbr + 1);
      issued := issued + [name];
    }
  }

  /** While a factory's counter has not wrapped, all its names are distinct. */
  lemma IssuedNamesDistinct(f: ThreadFactoryImpl, i: int, j: int)
    requires f.Valid() && |f.issued| <= 0x1_0000_0000
    requires 0 <= i < j < |f.issued|
    ensures f.issued[i] != f.issued[j]
  {
    NamesDistinct(f.id, i + 1, j + 1);
  }
}
