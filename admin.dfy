/** `AdminSection`: its own view of the persisted collection, the CSV it
    exports, and the "Clear All" button. */
module Admin {
  import opened Option
  import opened Storage
  import opened Feedback
  import Csv

  class AdminPanel {
    const entries: PersistedValue<seq<Entry>>

    predicate Valid() {
      entries.key == FeedbackKey
    }

    constructor (storage: LocalStorage, decode: string -> Option<seq<Entry>>, encode: seq<Entry> -> string)
      modifies storage
      ensures Valid() && entries.storage == storage && entries.encode == encode
      ensures entries.value == Load(old(storage.items), old(storage.available), FeedbackKey, [], decode)
      ensures storage.items == Written(old(storage.items), storage.available, storage.capacity, FeedbackKey, encode(entries.value))
      ensures storage.available == old(storage.available) && storage.capacity == old(storage.capacity)
    {
      entries := new PersistedValue(storage, FeedbackKey, [], decode, encode);
    }

    /** "Clear All": after a confirmed prompt the stored collection is removed
        (the key itself, not an empty list); the page then reloads, confirmed
        or not, unless the removal threw. */
    method ClearAll(confirmed: bool) returns (reload: bool)
      requires Valid()
      modifies entries.storage
      ensures reload == (!confirmed || entries.storage.available)
      ensures entries.storage.items == if confirmed && entries.storage.available
        then old(entries.storage.items) - {FeedbackKey} else old(entries.storage.items)
      ensures entries.storage.available == old(entries.storage.available)
      ensures entries.storage.capacity == old(entries.storage.capacity)
    {
      if confirmed {
        var ok := entries.storage.RemoveItem(FeedbackKey);
        if !ok {
          return false;
        }
      }
      reload := true;
    }
  }

  /** A visit to the page: the form mounts over the storage, the visitor fills
      it in and submits, and the page reloads with the admin view.
      `decode` and `encode` stand for `JSON.parse` and `JSON.stringify`, which
      round-trip every collection whose ids stay below 2^53 (the range where
      a JavaScript number holds an integer exactly; see `Csv.Decimal`) and
      never produce the empty string. When the
      storage accepts the new collection, the reloaded admin view shows the new
      entry first, before the collection loaded at the start, and its CSV reads
      back to the cells of those entries. */
  method SubmitThenReload(items: map<string, string>, capacity: nat,
                          decode: string -> Option<seq<Entry>>, encode: seq<Entry> -> string,
                          name: string, email: string, topic: string, message: string,
                          now: nat, ts: string)
    returns (shown: seq<Entry>, csv: string)
    requires forall v :: decode(encode(v)) == Some(v) && encode(v) != ""
    ensures var item := NewEntry(now, name, email, topic, message, ts);
            var loaded := Load(items, true, FeedbackKey, [], decode);
            |encode(Prepend(loaded, item))| <= capacity ==> shown == Prepend(loaded, item)
    ensures (forall k :: 0 <= k < |shown| ==> Csv.TimestampOneLine(shown[k])) ==> Csv.Read(csv) == Some(Csv.CellRows(shown))
  {
    var storage := new LocalStorage(items, true, capacity);
    var form := new Feedback.FeedbackForm(storage, decode, encode);
    ghost var loaded := form.entries.value;
    form.Type(Name, name);
    form.Type(Email, email);
    form.Type(Topic, topic);
    form.Type(Message, message);
    form.Submit(now, ts);
    assert form.entries.value == Prepend(loaded, NewEntry(now, name, email, topic, message, ts));
    ghost var written := storage.items;
    var reloaded := new AdminPanel(storage, decode, encode);
    shown := reloaded.entries.value;
    csv := Csv.Export(shown);
    if |encode(form.entries.value)| <= capacity {
      LoadAfterWrite(written, true, capacity, FeedbackKey, [], decode, encode(form.entries.value), form.entries.value);
    }
    if forall k :: 0 <= k < |shown| ==> Csv.TimestampOneLine(shown[k]) {
      Csv.ExportRoundTrip(shown);
    }
  }
}
