/**
 The part of the IMAP4rev1 server (RFC 3501) that the relay scripts rely on: a mailbox of
 messages addressed by sequence number, SEARCH by the keys ALL, UNSEEN and FLAGGED, the
 implicit \Seen side effect of FETCH, and STORE with +FLAGS / -FLAGS.
 */
module Imap {
  import opened Types

  /** The two system flags the relay reads or writes. */
  datatype Flag = Seen | Flagged

  /** A message as the server holds it: its flags and its full RFC 822 text. */
  datatype Message = Message(flags: set<Flag>, payload: Bytes)

  /**
   A selected mailbox. Message sequence numbers run from 1 to the number of messages
   (section 2.3.1.2 of RFC 3501), so sequence number h addresses `mb[h - 1]`.
   */
  type Mailbox = seq<Message>

  /** A message sequence number, as returned by SEARCH and passed to FETCH and STORE. */
  type Handle = nat

  /** Every folder of the IMAP account, by name. */
  type Account = map<string, Mailbox>

  predicate Valid(mb: Mailbox, h: Handle) {
    1 <= h <= |mb|
  }

  /** The body of the message with sequence number h; nothing for a number the server would reject. */
  function Payload(mb: Mailbox, h: Handle): Bytes {
    if Valid(mb, h) then mb[h - 1].payload else []
  }

  /* ---------------- SEARCH (section 6.4.4 of RFC 3501) ---------------- */

  datatype SearchKey = ALL | UNSEEN | FLAGGED

  /** Whether a message with these flags matches the search key. */
  predicate Satisfies(flags: set<Flag>, key: SearchKey) {
    match key
    case ALL => true
    case UNSEEN => Seen !in flags
    case FLAGGED => Flagged in flags
  }

  predicate Increasing(hs: seq<Handle>) {
    forall i, j :: 0 <= i < j < |hs| ==> hs[i] < hs[j]
  }

  /** Sequence numbers above `lo` whose message matches `key`, in ascending order. */
  function SearchFrom(mb: Mailbox, key: SearchKey, lo: nat): (hs: seq<Handle>)
    requires lo <= |mb|
    ensures forall h :: h in hs <==> lo < h <= |mb| && Satisfies(mb[h - 1].flags, key)
    ensures forall i :: 0 <= i < |hs| ==> lo < hs[i]
    ensures Increasing(hs)
    decreases |mb| - lo
  {
    if lo == |mb| then []
    else if Satisfies(mb[lo].flags, key) then
      [lo + 1] + SearchFrom(mb, key, lo + 1)
    else SearchFrom(mb, key, lo + 1)
  }

  /**
   The server's answer to `SEARCH key`: exactly the matching messages, each once, in
   ascending sequence-number order.
   */
  function Search(mb: Mailbox, key: SearchKey): (hs: seq<Handle>)
    ensures forall h :: h in hs <==> Valid(mb, h) && Satisfies(mb[h - 1].flags, key)
    ensures Increasing(hs)
  {
    SearchFrom(mb, key, 0)
  }

  /** SEARCH answers with nothing exactly when no message of the mailbox matches. */
  lemma {:induction false} SearchEmptyIff(mb: Mailbox, key: SearchKey)
    ensures Search(mb, key) == [] <==> forall m :: 0 <= m < |mb| ==> !Satisfies(mb[m].flags, key)
  {
    if forall m :: 0 <= m < |mb| ==> !Satisfies(mb[m].flags, key) {
      NoneFrom(mb, key, 0);
    } else {
      var m :| 0 <= m < |mb| && Satisfies(mb[m].flags, key);
      assert m + 1 in Search(mb, key);
    }
  }

  lemma {:induction false} NoneFrom(mb: Mailbox, key: SearchKey, lo: nat)
    requires lo <= |mb|
    requires forall m :: lo <= m < |mb| ==> !Satisfies(mb[m].flags, key)
    ensures SearchFrom(mb, key, lo) == []
    decreases |mb| - lo
  {
    if lo < |mb| {
      NoneFrom(mb, key, lo + 1);
    }
  }

  /** ALL answers with every message of the mailbox. */
  lemma {:induction false} SearchAllIsEverything(mb: Mailbox)
    ensures Search(mb, ALL) == seq(|mb|, i => i + 1)
  {
    AllFrom(mb, 0);
  }

  lemma {:induction false} AllFrom(mb: Mailbox, lo: nat)
    requires lo <= |mb|
    ensures SearchFrom(mb, ALL, lo) == seq(|mb| - lo, i => lo + i + 1)
    decreases |mb| - lo
  {
    if lo < |mb| {
      AllFrom(mb, lo + 1);
      assert SearchFrom(mb, ALL, lo) == [lo + 1] + seq(|mb| - lo - 1, i => lo + 1 + i + 1);
    }
  }

  /* ---------------- FETCH (section 6.4.5 of RFC 3501) ---------------- */

  /**
   A fetch data item. `RFC822` is the whole message and is functionally `BODY[]`;
   `Body(section, peek)` is `BODY[section]`, or `BODY.PEEK[section]` when `peek` holds.
   */
  datatype FetchItem = RFC822 | Body(section: string, peek: bool)

  /** Whether fetching this item implicitly sets \Seen. */
  predicate MarksSeen(item: FetchItem) {
    match item
    case RFC822 => true
    case Body(_, peek) => !peek
  }

  /** Whether a FETCH asking for these items sets \Seen: it does as soon as one item does. */
  predicate SetsSeen(items: seq<FetchItem>) {
    exists i :: 0 <= i < |items| && MarksSeen(items[i])
  }

  /** The flags of a message after it has been fetched with these items. */
  function FetchFlags(items: seq<FetchItem>, flags: set<Flag>): set<Flag> {
    if SetsSeen(items) then flags + {Seen} else flags
  }

  /** The mailbox after a successful FETCH of message h with the given items. */
  function Fetch(mb: Mailbox, h: Handle, items: seq<FetchItem>): (mb': Mailbox)
    requires Valid(mb, h)
    ensures |mb'| == |mb|
    ensures forall m :: 0 <= m < |mb| && m != h - 1 ==> mb'[m] == mb[m]
    ensures mb'[h - 1].payload == mb[h - 1].payload
    ensures SetsSeen(items) ==> Seen in mb'[h - 1].flags
    ensures mb'[h - 1].flags - {Seen} == mb[h - 1].flags - {Seen}
    ensures !SetsSeen(items) ==> mb' == mb
  {
    if SetsSeen(items) then mb[h - 1 := mb[h - 1].(flags := FetchFlags(items, mb[h - 1].flags))] else mb
  }

  /* ---------------- STORE (section 6.4.6 of RFC 3501) ---------------- */

  /** `+FLAGS (flags)` or `-FLAGS (flags)`. */
  datatype StoreOp = AddFlags(flags: set<Flag>) | RemoveFlags(flags: set<Flag>)

  /** Whether a flag set shows that the store operation has taken effect. */
  predicate Applied(op: StoreOp, flags: set<Flag>) {
    match op
    case AddFlags(s) => s <= flags
    case RemoveFlags(s) => s !! flags
  }

  /** The flags of a message after a store operation on it. */
  function Apply(op: StoreOp, flags: set<Flag>): (r: set<Flag>)
    ensures Applied(op, r)
    ensures forall g :: g !in op.flags ==> (g in r <==> g in flags)
  {
    match op
    case AddFlags(s) => flags + s
    case RemoveFlags(s) => flags - s
  }

  /** The mailbox after a successful STORE on message h. */
  function Store(mb: Mailbox, h: Handle, op: StoreOp): (mb': Mailbox)
    requires Valid(mb, h)
    ensures |mb'| == |mb|
    ensures forall m :: 0 <= m < |mb| && m != h - 1 ==> mb'[m] == mb[m]
    ensures mb'[h - 1].payload == mb[h - 1].payload
    ensures Applied(op, mb'[h - 1].flags)
    ensures forall g :: g !in op.flags ==> (g in mb'[h - 1].flags <==> g in mb[h - 1].flags)
  {
    mb[h - 1 := mb[h - 1].(flags := Apply(op, mb[h - 1].flags))]
  }
}
