/** `ObjectPool<T>`: a `ConcurrentBag<T>` of free objects plus a generator used when the
    bag is empty. The bag has no order, so the pool is a multiset and `TryTake` may hand out
    any element of it. */
module ObjectPool {

  datatype Pool<T> = Pool(free: multiset<T>)

  /** `Get()`: a pooled object when there is one, otherwise the generator's `created` object.
      Which pooled object comes out is not determined. */
  method Get<T(==)>(p: Pool<T>, created: T) returns (p': Pool<T>, item: T)
    ensures |p.free| == 0 ==> item == created && p' == p
    ensures |p.free| > 0 ==> item in p.free && p'.free == p.free - multiset{item}
    ensures |p.free| > 0 ==> p'.free + multiset{item} == p.free
  {
    if |p.free| == 0 {
      p', item := p, created;
    } else {
      item :| item in p.free;
      p' := Pool(p.free - multiset{item});
    }
  }

  /** `Return(item)`: never rejects, no size bound. */
  function Return<T>(p: Pool<T>, item: T): (p': Pool<T>)
    ensures |p'.free| == |p.free| + 1
    ensures p'.free - multiset{item} == p.free
  {
    Pool(p.free + multiset{item})
  }

  /** Returning an object to an otherwise empty pool makes it the next one handed out. */
  method ReturnThenGet<T(==)>(x: T, created: T) returns (item: T)
    ensures item == x
  {
    var p := Return(Pool(multiset{}), x);
    var p';
    p', item := Get(p, created);
  }

  /** Get undoes Return: whatever comes out, the pool together with it is unchanged. */
  method GetAfterReturn<T(==)>(p: Pool<T>, x: T, created: T) returns (p': Pool<T>, item: T)
    ensures p'.free + multiset{item} == p.free + multiset{x}
  {
    p', item := Get(Return(p, x), created);
  }
}
