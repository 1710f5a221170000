/** ObjectPool: slots handed out from blocks, and recycled through a free list kept inside the slots themselves. */
module ObjectPools {
  const NULL: int := -1

  /** A slot's memory holds nothing yet, an object, or the link to the next free slot. */
  datatype Cell<T> = Raw | Live(value: T) | Free(next: int)

  /** The slot released before the k-th, or the null link if there is none. */
  function Link(s: seq<nat>, k: nat): int
    requires k <= |s|
  {
    if k == 0 then NULL else s[k - 1]
  }

  predicate Distinct(s: seq<nat>) {
    forall i, j | 0 <= i < j < |s| :: s[i] != s[j]
  }

  /** The free list threaded through the cells, from `head`, is `list` (latest last), and no other cell is free. */
  predicate Threaded<T>(cells: seq<Cell<T>>, head: int, list: seq<nat>) {
    && Distinct(list)
    && head == Link(list, |list|)
    && (forall k | 0 <= k < |list| :: list[k] < |cells|)
    && (forall k {:trigger cells[list[k]]} | 0 <= k < |list| :: cells[list[k]] == Free(Link(list, k)))
    && (forall i | 0 <= i < |cells| && cells[i].Free? :: i in list)
  }

  lemma ThreadPush<T>(cells: seq<Cell<T>>, head: int, list: seq<nat>, p: nat)
    requires Threaded(cells, head, list) && p < |cells| && !cells[p].Free?
    ensures Threaded(cells[p := Free(head)], p, list + [p])
  {
  }

  lemma ThreadPop<T>(cells: seq<Cell<T>>, head: int, list: seq<nat>, value: T)
    requires Threaded(cells, head, list) && head != NULL
    ensures list != [] && head == list[|list| - 1] < |cells| && cells[head].Free?
    ensures Threaded(cells[head := Live(value)], cells[head].next, list[..|list| - 1])
  {
  }

  lemma ThreadTake<T>(cells: seq<Cell<T>>, list: seq<nat>, p: nat, value: T)
    requires Threaded(cells, NULL, list) && p < |cells|
    ensures list == [] && Threaded(cells[p := Live(value)], NULL, list)
  {
  }

  lemma ThreadGrow<T>(cells: seq<Cell<T>>, list: seq<nat>, n: nat)
    requires Threaded(cells, NULL, list)
    ensures Threaded(cells + seq(n, _ => Raw), NULL, list)
  {
  }

  class ObjectPool<T> {
    const blockSize: nat
    var cells: seq<Cell<T>> // all blocks in a row; a slot is an index that never changes
    var used: nat           // how far the last block has been used
    var freeHead: int       // where the free list starts, or NULL
    ghost var freeList: seq<nat>
    ghost var mem: map<nat, T> // the acquired objects, by slot

    ghost predicate Valid()
      reads this
    {
      && used <= blockSize <= |cells| && blockSize > 0
      && Threaded(cells, freeHead, freeList)
      && (forall i | 0 <= i < |cells| :: cells[i].Raw? <==> i >= |cells| - blockSize + used)
      && (forall i | 0 <= i < |cells| && cells[i].Live? :: i in mem)
      && (forall i | i in mem :: i < |cells| && cells[i] == Live(mem[i]))
    }

    constructor (blockSize: nat)
      requires blockSize > 0
      ensures Valid() && mem == map[] && freeList == [] && this.blockSize == blockSize && |cells| == blockSize
    {
      this.blockSize := blockSize;
      cells, used, freeHead, freeList, mem := [], 0, NULL, [], map[];
      new;
      AddBlock();
    }

    method AddBlock()
      requires blockSize > 0
      modifies `cells, `used
      ensures used == 0 && cells == old(cells) + seq(blockSize, _ => Raw)
    {
      cells := cells + seq(blockSize, _ => Raw);
      used := 0;
    }

    /** The most recently released slot, or the next unused one; a new block only when every slot is taken. */
    method Acquire(value: T) returns (p: nat)
      requires Valid()
      modifies this
      ensures Valid()
      ensures p !in old(mem) && mem == old(mem)[p := value]
      ensures if old(freeList) == [] then freeList == [] else freeList + [p] == old(freeList)
      ensures old(freeList) != [] || old(used) < blockSize ==> |cells| == |old(cells)|
    {
      hide Threaded;
      if freeHead != NULL {
        ThreadPop(cells, freeHead, freeList, value);
        p := freeHead;
        freeHead := cells[p].next;
        freeList := freeList[..|freeList| - 1];
      } else {
        if used == blockSize {
          ThreadGrow(cells, freeList, blockSize);
          AddBlock();
        }
        p := |cells| - blockSize + used;
        used := used + 1;
        ThreadTake(cells, freeList, p, value);
      }
      cells := cells[p := Live(value)];
      mem := mem[p := value];
    }

    /** The slot becomes the next one to be reused. */
    method Release(p: nat)
      requires Valid() && p in mem
      modifies `cells, `freeHead, `freeList, `mem
      ensures Valid()
      ensures mem == old(mem) - {p} && freeList == old(freeList) + [p] && |cells| == |old(cells)|
    {
      hide Threaded;
      ThreadPush(cells, freeHead, freeList, p);
      cells := cells[p := Free(freeHead)];
      freeHead := p;
      freeList := freeList + [p];
      mem := mem - {p};
    }

    /** Reading an acquired object. */
    function Get(p: nat): (value: T)
      requires Valid() && p in mem
      reads this
      ensures value == mem[p]
    {
      cells[p].value
    }

    /** Writing an acquired object in place. */
    method Put(p: nat, value: T)
      requires Valid() && p in mem
      modifies `cells, `mem
      ensures Valid() && mem == old(mem)[p := value] && freeList == old(freeList)
    {
      cells := cells[p := Live(value)];
      mem := mem[p := value];
    }
  }
}
