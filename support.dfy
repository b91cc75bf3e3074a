/**
 * The page-view counter of js/modules/support.js: unless the special icon
 * file is present, each new tab reads `pageViewCount` from the store,
 * writes it back one higher, and shows the coffee icon on the first view
 * and every tenth one.
 */
module Support {
  import opened Common
  import opened Json
  import Storage

  /** `checkSpecialFile`: the fetch's `response.ok`, or false when the fetch throws (`None`). */
  function HasSpecialFile(response: Option<bool>): (r: bool)
    ensures r <==> response == Some(true)
  {
    match response
    case Some(ok) => ok
    case None => false
  }

  /** `data.pageViewCount || 0` for a numeric or missing counter. */
  function StoredCount(v: Value): (r: int)
    ensures !v.Truthy() ==> r == 0
    ensures v.Number? ==> r == v.n
  {
    if v.Number? then v.n else 0
  }

  /** `count % 10 === 0 || count === 1`. */
  predicate ShowsCoffee(count: int)
  {
    count % 10 == 0 || count == 1
  }

  /**
   * `checkAndShowCoffee`: with the special file present nothing is read or
   * written and no icon is shown; otherwise the counter is stored one
   * higher, every other key is kept, and the icon is shown for the new count.
   */
  method CheckAndShowCoffee(store: Storage.Store, response: Option<bool>) returns (shown: bool)
    modifies store
    ensures HasSpecialFile(response) ==> !shown && store.data == old(store.data)
    ensures !HasSpecialFile(response) ==>
      var count := StoredCount(Storage.Read(old(store.data), "pageViewCount")) + 1;
      store.data == old(store.data)["pageViewCount" := Number(count)] && shown == ShowsCoffee(count)
  {
    if HasSpecialFile(response) {
      return false;
    }
    var count := StoredCount(Storage.Read(store.data, "pageViewCount"));
    count := count + 1;
    store.data := store.data["pageViewCount" := Number(count)];
    shown := ShowsCoffee(count);
  }

  /** After the first visit the icon appears exactly once in every ten consecutive visits. */
  lemma {:induction false} OncePerTen(start: nat)
    requires start >= 2
    ensures |set k | start <= k < start + 10 && ShowsCoffee(k)| == 1
  {
    var m := start + (10 - start % 10) % 10;
    assert m % 10 == 0 && start <= m < start + 10;
    assert (set k | start <= k < start + 10 && ShowsCoffee(k)) == {m};
  }

  /** A missing counter counts as 0, so the first view shows the icon. */
  lemma FirstViewShows(data: map<string, Value>)
    requires "pageViewCount" !in data
    ensures StoredCount(Storage.Read(data, "pageViewCount")) + 1 == 1
    ensures ShowsCoffee(StoredCount(Storage.Read(data, "pageViewCount")) + 1)
  {
  }
}
