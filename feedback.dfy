/** The feedback collection and the form that submits to it. The collection
    is kept newest first: a submission puts its entry at index 0. */
module Feedback {
  import opened Option
  import opened Storage

  /** The storage key under which the collection is persisted. */
  const FeedbackKey: string := "excel-ebook-feedback"

  /** A stored entry. Every field is optional because a collection read back
      from storage may lack any of them; a submission sets all of them. `id`
      is the clock reading in milliseconds and `ts` the ISO-8601 timestamp. */
  datatype Entry = Entry(id: Option<nat>, name: Option<string>, email: Option<string>,
                         topic: Option<string>, message: Option<string>, ts: Option<string>)

  /** The entry a submission creates from the form fields and the clock. */
  function NewEntry(now: nat, name: string, email: string, topic: string, message: string, ts: string): (r: Entry)
    ensures r.id == Some(now) && r.ts == Some(ts)
    ensures r.name == Some(name) && r.email == Some(email) && r.topic == Some(topic) && r.message == Some(message)
  {
    Entry(Some(now), Some(name), Some(email), Some(topic), Some(message), Some(ts))
  }

  /** `[item, ...entries]`: the new entry first, the old collection unchanged behind it. */
  function Prepend(entries: seq<Entry>, item: Entry): (r: seq<Entry>)
    ensures |r| == |entries| + 1
    ensures r[0] == item && r[1..] == entries
  {
    [item] + entries
  }

  /** Every entry carries an id and ids never increase from the front. */
  predicate NewestFirst(entries: seq<Entry>) {
    (forall i :: 0 <= i < |entries| ==> entries[i].id.Some?) &&
    (forall i, j :: 0 <= i < j < |entries| ==> entries[j].id.value <= entries[i].id.value)
  }

  /** A submission made no earlier than the newest entry keeps the collection newest first. */
  lemma PrependKeepsNewestFirst(entries: seq<Entry>, now: nat, name: string, email: string,
                                topic: string, message: string, ts: string)
    requires NewestFirst(entries)
    requires entries != [] ==> entries[0].id.value <= now
    ensures NewestFirst(Prepend(entries, NewEntry(now, name, email, topic, message, ts)))
  {
  }

  /** One field of the form and what it was typed into. */
  datatype Field = Name | Email | Topic | Message

  /** `FeedbackSection`: the form's state slots and the persisted collection. */
  class FeedbackForm {
    const entries: PersistedValue<seq<Entry>>
    var name: string
    var email: string
    var topic: string
    var message: string
    var sent: bool

    /** The collection is the one persisted under the feedback key. */
    predicate Valid() {
      entries.key == FeedbackKey
    }

    /** Mounting: empty fields and the collection loaded from storage (empty when the key is absent, the item is empty or `decode` fails). */
    constructor (storage: LocalStorage, decode: string -> Option<seq<Entry>>, encode: seq<Entry> -> string)
      modifies storage
      ensures Valid() && entries.storage == storage && entries.encode == encode
      ensures entries.value == Load(old(storage.items), old(storage.available), FeedbackKey, [], decode)
      ensures storage.items == Written(old(storage.items), storage.available, storage.capacity, FeedbackKey, encode(entries.value))
      ensures storage.available == old(storage.available) && storage.capacity == old(storage.capacity)
      ensures name == "" && email == "" && topic == "" && message == "" && !sent
    {
      entries := new PersistedValue(storage, FeedbackKey, [], decode, encode);
      name, email, topic, message, sent := "", "", "", "", false;
    }

    /** An `onChange` handler: the field takes the input's text. */
    method Type(field: Field, text: string)
      modifies this
      ensures name == (if field == Name then text else old(name))
      ensures email == (if field == Email then text else old(email))
      ensures topic == (if field == Topic then text else old(topic))
      ensures message == (if field == Message then text else old(message))
      ensures sent == old(sent)
    {
      match field
      case Name => name := text;
      case Email => email := text;
      case Topic => topic := text;
      case Message => message := text;
    }

    /** The submit handler: the entry built from the fields, the clock reading
        `now` and the timestamp `ts` is put first and persisted; the fields are
        cleared and the form shows "Saved". */
    method Submit(now: nat, ts: string)
      requires Valid()
      modifies this, entries, entries.storage
      ensures entries.value == Prepend(old(entries.value), NewEntry(now, old(name), old(email), old(topic), old(message), ts))
      ensures entries.storage.items == Written(old(entries.storage.items), entries.storage.available,
                                               entries.storage.capacity, FeedbackKey, entries.encode(entries.value))
      ensures entries.storage.available == old(entries.storage.available)
      ensures entries.storage.capacity == old(entries.storage.capacity)
      ensures name == "" && email == "" && topic == "" && message == "" && sent
    {
      var item := NewEntry(now, name, email, topic, message, ts);
      entries.Set(Prepend(entries.value, item));
      name, email, topic, message, sent := "", "", "", "", true;
    }
  }
}
