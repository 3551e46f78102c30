module StoreOrder {

  import opened Sequences
  import opened Store

  function CreatedAt(m: Message): int
  {
    m.createdAt
  }

  /** `orderBy: { createdAt: 'desc' }` over rows given in table order: newest first; of two
      rows created at the same time the later row comes first. */
  function NewestFirst(ms: seq<Message>): (r: seq<Message>)
    ensures |r| == |ms| && multiset(r) == multiset(ms)
    ensures SortedDesc(r, CreatedAt)
  {
    ReverseMultiset(ms);
    SortDesc(Reverse(ms), CreatedAt)
  }

  /** Creation times that never decrease along the rows. */
  predicate ChronologicalRows(ms: seq<Message>)
  {
    forall i, j :: 0 <= i < j < |ms| ==> ms[i].createdAt <= ms[j].createdAt
  }

  /** When rows were created in row order, newest first is the reversed table. */
  lemma NewestFirstOfChronological(ms: seq<Message>)
    requires ChronologicalRows(ms)
    ensures NewestFirst(ms) == Reverse(ms)
  {
    SortDescOfSorted(Reverse(ms), CreatedAt);
  }

  /** Creation times that increase strictly along the rows: no two messages share a stamp. */
  predicate StrictlyChronologicalRows(ms: seq<Message>)
  {
    forall i, j :: 0 <= i < j < |ms| ==> ms[i].createdAt < ms[j].createdAt
  }

  /** With distinct stamps `orderBy` leaves nothing open: every ordering the store may return,
      a permutation of the rows sorted newest first, is the reversed table. */
  lemma NewestFirstUnique(ms: seq<Message>, s: seq<Message>)
    requires StrictlyChronologicalRows(ms)
    requires multiset(s) == multiset(ms) && SortedDesc(s, CreatedAt)
    ensures s == NewestFirst(ms) && s == Reverse(ms)
  {
    NewestFirstOfChronological(ms);
    var r := Reverse(ms);
    ReverseMultiset(ms);
    assert SortedDesc(r, CreatedAt);
    SortedDescUnique(r, s, CreatedAt);
  }

  /** With shared stamps the order is open: three messages created at the same time, in table
      order, already meet everything `orderBy` promises, yet the model's tie rule puts them the
      other way round. */
  lemma TiesLeaveOrderOpen(ms: seq<Message>)
    requires ms == [Message(1, "", 1, 1, 0), Message(2, "", 1, 1, 0), Message(3, "", 1, 1, 0)]
    ensures ChronologicalRows(ms) && SortedDesc(ms, CreatedAt)
    ensures NewestFirst(ms)[0] == ms[2] && NewestFirst(ms) != ms
  {
    assert forall i :: 0 <= i < |ms| ==> ms[i].createdAt == 0;
    NewestFirstOfChronological(ms);
    assert Reverse(ms)[0] == ms[2];
    assert NewestFirst(ms)[0] != ms[0];
  }

  /** The first row of a newest-first ordering is a row created no earlier than any other. */
  lemma NewestFirstHead(ms: seq<Message>)
    requires ms != []
    ensures NewestFirst(ms)[0] in ms
    ensures forall m :: m in ms ==> m.createdAt <= NewestFirst(ms)[0].createdAt
  {
    var r := NewestFirst(ms);
    assert r[0] in multiset(ms);
    forall m | m in ms ensures m.createdAt <= r[0].createdAt {
      assert m in multiset(r);
      var j :| 0 <= j < |r| && r[j] == m;
      assert j > 0 ==> CreatedAt(r[0]) >= CreatedAt(r[j]);
    }
  }
}
