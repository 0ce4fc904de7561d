/** The `useLocalStorage` hook every page persists through: the lazy read
    with its fallback, the write effect with its same-page notice, the
    same-page listener and the opt-in listener for other tabs. The browser
    storage is a map, and a page is that map with the bindings mounted on
    it; all bindings of one model hold values of one type. */
module LocalStore {
  import opened Wrappers

  /** `window.localStorage`: string values under string keys. */
  type Storage = map<string, string>

  /** A binding's serializer and deserializer; `parse` gives `None` where
      the deserializer throws. */
  datatype Codec<!T> = Codec(serialize: T -> string, parse: string -> Option<T>)

  /** A value that survives its own serialization as a non-empty string,
      as every value `JSON.stringify` and `JSON.parse` carry does. */
  predicate RoundTrips<T(==)>(codec: Codec<T>, v: T) {
    codec.serialize(v) != "" && codec.parse(codec.serialize(v)) == Some(v)
  }

  /** One mounted `useLocalStorage(key, initialValue, { syncAcrossTabs })`. */
  datatype Binding<T> = Binding(key: string, value: T, syncAcrossTabs: bool)

  /** The `detail` of the same-page change event. */
  datatype Notice<T> = Notice(key: string, value: T)

  /** A `storage` event from another tab; `None` stands for `null`. */
  datatype TabEvent = TabEvent(key: Option<string>, newValue: Option<string>)

  /** The lazy initial state: the deserialized stored string, or the
      fallback when the key is missing, its string is empty or it does not
      parse. Reading never fails. */
  function Read<T(==)>(store: Storage, key: string, fallback: T, codec: Codec<T>): (r: T)
    ensures key !in store || store[key] == "" || codec.parse(store[key]).None? ==> r == fallback
    ensures r == fallback || (key in store && store[key] != "" && codec.parse(store[key]) == Some(r))
  {
    if key in store && store[key] != "" then codec.parse(store[key]).GetOr(fallback) else fallback
  }

  /** Mounting a binding: the key, the value read, the tab option. */
  function Open<T(==)>(store: Storage, key: string, fallback: T, codec: Codec<T>, syncAcrossTabs: bool): (r: Binding<T>)
    ensures r.key == key && r.syncAcrossTabs == syncAcrossTabs
    ensures r.value == Read(store, key, fallback, codec)
  {
    Binding(key, Read(store, key, fallback, codec), syncAcrossTabs)
  }

  /** The write effect, run on mount and on every value change:
      `setItem(key, serialize(value))`, then the notice. When `setItem`
      throws (`written` is false) the error is swallowed, nothing is stored
      and no notice goes out. */
  function Persist<T(==)>(store: Storage, b: Binding<T>, codec: Codec<T>, written: bool): (r: (Storage, Option<Notice<T>>))
    ensures written ==> r.0 == store[b.key := codec.serialize(b.value)] && r.1 == Some(Notice(b.key, b.value))
    ensures !written ==> r.0 == store && r.1.None?
    ensures forall k :: k != b.key ==> (k in r.0 <==> k in store) && (k in store ==> r.0[k] == store[k])
  {
    if written then (store[b.key := codec.serialize(b.value)], Some(Notice(b.key, b.value))) else (store, None)
  }

  /** The same-page listener: a notice for this binding's key replaces its
      value; any other notice is ignored. */
  function Deliver<T(==)>(b: Binding<T>, n: Notice<T>): (r: Binding<T>)
    ensures r.key == b.key && r.syncAcrossTabs == b.syncAcrossTabs
    ensures n.key == b.key ==> r.value == n.value
    ensures n.key != b.key ==> r == b
  {
    if n.key == b.key then b.(value := n.value) else b
  }

  /** The `storage` listener, mounted only with `syncAcrossTabs`: an event
      for this key with a non-empty new string replaces the value by its
      parse; a parse failure is swallowed and keeps the value. */
  function FromOtherTab<T(==)>(b: Binding<T>, e: TabEvent, codec: Codec<T>): (r: Binding<T>)
    ensures r.key == b.key && r.syncAcrossTabs == b.syncAcrossTabs
    ensures !b.syncAcrossTabs ==> r == b
    ensures e.key != Some(b.key) || e.newValue.None? || e.newValue == Some("") ==> r == b
    ensures r == b || (b.syncAcrossTabs && e.key == Some(b.key) && e.newValue.Some? && codec.parse(e.newValue.value) == Some(r.value))
  {
    if b.syncAcrossTabs && e.key == Some(b.key) && e.newValue.Some? && e.newValue.value != "" then
      match codec.parse(e.newValue.value)
      case Some(v) => b.(value := v)
      case None => b
    else b
  }

  /** The storage and the bindings mounted on one page. */
  datatype Page<T> = Page(store: Storage, bindings: seq<Binding<T>>)

  /** Every binding hears a notice. */
  function Broadcast<T(==)>(bs: seq<Binding<T>>, n: Notice<T>): (r: seq<Binding<T>>)
    ensures |r| == |bs|
    ensures forall k :: 0 <= k < |bs| ==> r[k] == Deliver(bs[k], n)
  {
    seq(|bs|, k requires 0 <= k < |bs| => Deliver(bs[k], n))
  }

  /** Binding `i`'s setter called with `v`: the binding holds `v` at once;
      its write effect then stores it and, when the store succeeds, every
      binding on the page hears the notice. */
  function Set<T(==)>(p: Page<T>, i: nat, v: T, codec: Codec<T>, written: bool): (r: Page<T>)
    requires i < |p.bindings|
  {
    var b := p.bindings[i].(value := v);
    var bs := p.bindings[i := b];
    var (store, notice) := Persist(p.store, b, codec, written);
    match notice
    case None => Page(store, bs)
    case Some(n) => Page(store, Broadcast(bs, n))
  }

  /** A stored set: the string is under the key, every binding on that key
      now holds `v`, and bindings on other keys and other keys' strings are
      untouched. */
  lemma SetReachesSameKey<T>(p: Page<T>, i: nat, v: T, codec: Codec<T>)
    requires i < |p.bindings|
    ensures var r := Set(p, i, v, codec, true);
      && r.store == p.store[p.bindings[i].key := codec.serialize(v)]
      && |r.bindings| == |p.bindings|
      && (forall k :: 0 <= k < |p.bindings| && p.bindings[k].key == p.bindings[i].key ==>
            r.bindings[k] == p.bindings[k].(value := v))
      && (forall k :: 0 <= k < |p.bindings| && p.bindings[k].key != p.bindings[i].key ==>
            r.bindings[k] == p.bindings[k])
  {
  }

  /** A failed store: the storage and every other binding are untouched,
      and the setter's binding keeps its new value. */
  lemma FailedSetKeepsValue<T>(p: Page<T>, i: nat, v: T, codec: Codec<T>)
    requires i < |p.bindings|
    ensures var r := Set(p, i, v, codec, false);
      && r.store == p.store
      && r.bindings == p.bindings[i := p.bindings[i].(value := v)]
  {
  }

  /** A binding mounted after a stored set reads the value back, and
      other keys read as before. */
  lemma ReadAfterWrite<T>(store: Storage, key: string, v: T, other: string, fallback: T, codec: Codec<T>)
    requires RoundTrips(codec, v)
    ensures Read(store[key := codec.serialize(v)], key, fallback, codec) == v
    ensures other != key ==> Read(store[key := codec.serialize(v)], other, fallback, codec) == Read(store, other, fallback, codec)
  {
  }

  /** After a stored set, every binding on that key holds what a fresh
      mount would read from storage: the page and the storage agree. */
  lemma SetKeepsSameKeyInStep<T>(p: Page<T>, i: nat, v: T, codec: Codec<T>, fallback: T)
    requires i < |p.bindings| && RoundTrips(codec, v)
    ensures var r := Set(p, i, v, codec, true);
      forall k :: 0 <= k < |r.bindings| && r.bindings[k].key == p.bindings[i].key ==>
        r.bindings[k].value == Read(r.store, p.bindings[i].key, fallback, codec)
  {
    SetReachesSameKey(p, i, v, codec);
    ReadAfterWrite(p.store, p.bindings[i].key, v, p.bindings[i].key, fallback, codec);
  }

  /** The mount-time write stores the value just read, so a missing, empty
      or unreadable string is replaced by the serialized fallback. */
  lemma MountWritesBack<T>(store: Storage, key: string, fallback: T, codec: Codec<T>, sync: bool)
    ensures var b := Open(store, key, fallback, codec, sync);
      Persist(store, b, codec, true).0[key] == codec.serialize(b.value)
    ensures key !in store || store[key] == "" || codec.parse(store[key]).None? ==>
      Persist(store, Open(store, key, fallback, codec, sync), codec, true).0[key] == codec.serialize(fallback)
  {
  }

  /** A binding that hears its own notice is unchanged. */
  lemma OwnNoticeIsHarmless<T>(b: Binding<T>)
    ensures Deliver(b, Notice(b.key, b.value)) == b
  {
  }

  /** A listening binding on the written key takes the value another tab
      stored; one that does not listen keeps its own. */
  lemma OtherTabWriteArrives<T>(b: Binding<T>, v: T, codec: Codec<T>)
    requires RoundTrips(codec, v)
    ensures var r := FromOtherTab(b, TabEvent(Some(b.key), Some(codec.serialize(v))), codec);
      (b.syncAcrossTabs ==> r == b.(value := v)) && (!b.syncAcrossTabs ==> r == b)
  {
  }

  /** Clearing the other tab's storage (`key` null) never reaches a binding. */
  lemma ClearIsIgnored<T>(b: Binding<T>, newValue: Option<string>, codec: Codec<T>)
    ensures FromOtherTab(b, TabEvent(None, newValue), codec) == b
  {
  }
}
