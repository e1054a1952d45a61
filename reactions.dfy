/**
 * The `POST /react` handler: the reaction document maps a file name to an
 * emoji to an entry `{count, users}`, and one vote per (ip, uuid) pair is
 * kept for each file and emoji.
 */
module Reactions {
  import opened Maybe
  import ClientIp

  /** One voter: the client address and the uuid the browser generated. */
  datatype Reactor = Reactor(ip: string, uuid: string)

  /** `{count, users}` for one file and one emoji. */
  datatype Entry = Entry(count: int, users: seq<Reactor>)

  /** The reaction document: file name to emoji to entry. */
  type Table = map<string, map<string, Entry>>

  /** What the handler answers: status 400, or `{count}`. */
  datatype Response = BadRequest | Counted(count: int)

  /** JavaScript truthiness of a string field of the request body. */
  predicate Truthy(field: Option<string>) {
    field.Some? && field.value != ""
  }

  /** `users` holds no reactor twice. */
  predicate NoDuplicates(users: seq<Reactor>) {
    forall i, j :: 0 <= i < j < |users| ==> users[i] != users[j]
  }

  /** The entry invariant: the count is the number of distinct reactors. */
  predicate ValidEntry(e: Entry) {
    e.count == |e.users| && NoDuplicates(e.users)
  }

  /** Every entry of the document keeps the entry invariant. */
  predicate ValidTable(t: Table) {
    forall f, e :: f in t && e in t[f] ==> ValidEntry(t[f][e])
  }

  /** The entry for `filename` and `emoji`, or the fresh `{count: 0, users: []}`. */
  function EntryOf(t: Table, filename: string, emoji: string): Entry {
    if filename in t && emoji in t[filename] then t[filename][emoji] else Entry(0, [])
  }

  /**
   * The document after a valid reaction by `r`: the entry for `filename` and
   * `emoji` is created if needed and gains `r` unless `r` already voted.
   * Only that entry can change.
   */
  function Record(t: Table, filename: string, emoji: string, r: Reactor): (t': Table)
    ensures t'.Keys == t.Keys + {filename}
    ensures t'[filename].Keys == (if filename in t then t[filename].Keys else {}) + {emoji}
    ensures forall f :: f in t && f != filename ==> t'[f] == t[f]
    ensures forall e :: filename in t && e in t[filename] && e != emoji ==> t'[filename][e] == t[filename][e]
    ensures r in EntryOf(t, filename, emoji).users ==> t' == t
  {
    var entry := EntryOf(t, filename, emoji);
    if r in entry.users then t
    else
      var inner := if filename in t then t[filename] else map[];
      t[filename := inner[emoji := Entry(entry.count + 1, entry.users + [r])]]
  }

  /** A new reactor adds exactly one to the count and is appended to `users`. */
  lemma {:induction false} RecordNewReactor(t: Table, filename: string, emoji: string, r: Reactor)
    requires r !in EntryOf(t, filename, emoji).users
    ensures EntryOf(Record(t, filename, emoji, r), filename, emoji)
         == Entry(EntryOf(t, filename, emoji).count + 1, EntryOf(t, filename, emoji).users + [r])
  {
  }

  /** Reacting twice with the same (ip, uuid) is the same as reacting once. */
  lemma {:induction false} RecordIdempotent(t: Table, filename: string, emoji: string, r: Reactor)
    ensures Record(Record(t, filename, emoji, r), filename, emoji, r) == Record(t, filename, emoji, r)
  {
    var t1 := Record(t, filename, emoji, r);
    assert r in EntryOf(t1, filename, emoji).users;
  }

  /** Appending a reactor not yet present keeps `users` free of duplicates. */
  lemma {:induction false} AppendNew(users: seq<Reactor>, r: Reactor)
    requires NoDuplicates(users) && r !in users
    ensures NoDuplicates(users + [r])
  {
    var u := users + [r];
    forall i, j | 0 <= i < j < |u| ensures u[i] != u[j] {
      if j == |users| {
        assert u[i] == users[i];
      }
    }
  }

  /**
   * The entry invariant survives a reaction: if every count equals the number
   * of its distinct reactors before, it does afterwards.
   */
  lemma {:induction false} RecordKeepsInvariant(t: Table, filename: string, emoji: string, r: Reactor)
    requires ValidTable(t)
    ensures ValidTable(Record(t, filename, emoji, r))
  {
    var entry := EntryOf(t, filename, emoji);
    if r !in entry.users {
      AppendNew(entry.users, r);
      var t' := Record(t, filename, emoji, r);
      forall f, e | f in t' && e in t'[f] ensures ValidEntry(t'[f][e]) {
        if f == filename && e == emoji {
          assert t'[f][e] == Entry(entry.count + 1, entry.users + [r]);
        } else if f == filename {
          assert t'[f][e] == t[f][e];
        } else {
          assert t'[f] == t[f];
        }
      }
    }
  }

  /** The reaction document as stored: `reactions.json`, absent until the first vote. */
  class ReactionStore {
    var document: Option<Table>
    ghost var writes: nat

    constructor (document: Option<Table>)
      ensures this.document == document && writes == 0
    {
      this.document := document;
      writes := 0;
    }

    /** What the handler reads: the stored document, or `{}` when there is none. */
    function Loaded(): Table
      reads this
    {
      if document.Some? then document.value else map[]
    }

    /**
     * `POST /react` with body fields `filename`, `emoji`, `uuid`, from the
     * client whose address `getClientIp` derives from the `x-forwarded-for`
     * header and the connection's address. A missing or empty field gives
     * 400 and leaves the document untouched. Otherwise the vote is recorded;
     * the document is rewritten only when the (ip, uuid) pair is new, the
     * answer is the entry's count afterwards, and a document whose counts
     * match their reactors keeps that property.
     */
    method React(filename: Option<string>, emoji: Option<string>, uuid: Option<string>,
                 forwardedFor: Option<string>, remoteAddress: string)
      returns (response: Response)
      modifies this
      ensures !(Truthy(filename) && Truthy(emoji) && Truthy(uuid)) ==>
        response == BadRequest && document == old(document) && writes == old(writes)
      ensures Truthy(filename) && Truthy(emoji) && Truthy(uuid) ==>
        var r := Reactor(ClientIp.ClientIp(forwardedFor, remoteAddress), uuid.value);
        var before := EntryOf(old(Loaded()), filename.value, emoji.value);
        && response == Counted(EntryOf(Record(old(Loaded()), filename.value, emoji.value, r), filename.value, emoji.value).count)
        && (r in before.users ==> document == old(document) && writes == old(writes))
        && (r !in before.users ==>
              document == Some(Record(old(Loaded()), filename.value, emoji.value, r)) && writes == old(writes) + 1)
      ensures ValidTable(old(Loaded())) ==> ValidTable(Loaded())
    {
      var ip := ClientIp.ClientIp(forwardedFor, remoteAddress);
      if !Truthy(filename) || !Truthy(emoji) || !Truthy(uuid) {
        return BadRequest;
      }
      var f, e, r := filename.value, emoji.value, Reactor(ip, uuid.value);
      var reactions: Table := map[];
      if document.Some? {
        reactions := document.value;
      }
      if f !in reactions {
        reactions := reactions[f := map[]];
      }
      if e !in reactions[f] {
        reactions := reactions[f := reactions[f][e := Entry(0, [])]];
      }
      var entry := reactions[f][e];
      assert entry == EntryOf(Loaded(), f, e);
      var alreadyReacted := r in entry.users;
      if !alreadyReacted {
        reactions := reactions[f := reactions[f][e := Entry(entry.count + 1, entry.users + [r])]];
        assert reactions[f] == Record(Loaded(), f, e, r)[f];
        assert reactions == Record(Loaded(), f, e, r);
        if ValidTable(Loaded()) {
          RecordKeepsInvariant(Loaded(), f, e, r);
        }
        document := Some(reactions);
        writes := writes + 1;
      }
      response := Counted(reactions[f][e].count);
    }
  }

  /**
   * Votes on "sunset.jpg" with one emoji: (A, X) gives 1, (A, X) again
   * still 1, then (A, Y) gives 2.
   */
  lemma {:induction false} SunsetScenario(t: Table, a: string, x: string, y: string)
    requires "sunset.jpg" !in t && x != y
    ensures var thumbs := "\U{1F44D}";
      var t1 := Record(t, "sunset.jpg", thumbs, Reactor(a, x));
      var t2 := Record(t1, "sunset.jpg", thumbs, Reactor(a, x));
      var t3 := Record(t2, "sunset.jpg", thumbs, Reactor(a, y));
      && EntryOf(t1, "sunset.jpg", thumbs).count == 1
      && EntryOf(t2, "sunset.jpg", thumbs).count == 1
      && EntryOf(t3, "sunset.jpg", thumbs).count == 2
  {
    var thumbs := "\U{1F44D}";
    var t1 := Record(t, "sunset.jpg", thumbs, Reactor(a, x));
    RecordIdempotent(t, "sunset.jpg", thumbs, Reactor(a, x));
    assert EntryOf(t1, "sunset.jpg", thumbs).users == [Reactor(a, x)];
  }
}
