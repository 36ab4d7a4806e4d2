/**
 * The result of `JournalEntryRepository.getEntriesByJournalId`: `(journalEntryId, date)`
 * rows, `ORDER BY entry.date DESC`. The rows are built by inserting one row at a time
 * into a list kept in descending date order.
 */
module Listing {
  import opened Errors

  /** `IdDatePairDTO`: one row of the listing. */
  datatype IdDatePair = IdDatePair(id: int, date: Date)

  /** Newest first: no row is dated after a row before it. */
  predicate DateDescending(s: seq<IdDatePair>) {
    forall i, j :: 0 <= i < j < |s| ==> s[i].date >= s[j].date
  }

  /** No two rows describe the same entry. */
  predicate IdsDistinct(s: seq<IdDatePair>) {
    forall i, j :: 0 <= i < j < |s| ==> s[i].id != s[j].id
  }

  /** `s` with `x` placed in front of the first row dated before it. */
  function InsertByDate(s: seq<IdDatePair>, x: IdDatePair): (r: seq<IdDatePair>)
    ensures multiset(r) == multiset(s) + multiset{x}
  {
    if s == [] || x.date >= s[0].date then [x] + s
    else
      assert s == [s[0]] + s[1..];
      [s[0]] + InsertByDate(s[1..], x)
  }

  /** The rows of a listing are the rows inserted into it, and no others. */
  lemma InsertByDateMembers(s: seq<IdDatePair>, x: IdDatePair)
    ensures forall p :: p in InsertByDate(s, x) <==> p in s || p == x
  {
    var r := InsertByDate(s, x);
    forall p
      ensures p in r <==> p in s || p == x
    {
      assert p in r <==> p in multiset(r);
      assert p in s <==> p in multiset(s);
    }
  }

  /** Inserting keeps a listing newest first. */
  lemma {:induction false} InsertByDateDescending(s: seq<IdDatePair>, x: IdDatePair)
    requires DateDescending(s)
    ensures DateDescending(InsertByDate(s, x))
  {
    if s == [] || x.date >= s[0].date {
      assert InsertByDate(s, x) == [x] + s;
    } else {
      var rest := InsertByDate(s[1..], x);
      InsertByDateDescending(s[1..], x);
      InsertByDateMembers(s[1..], x);
      assert InsertByDate(s, x) == [s[0]] + rest;
      forall p | p in rest
        ensures s[0].date >= p.date
      {
        if p != x {
          var i :| 0 <= i < |s[1..]| && s[1..][i] == p;
          assert s[i + 1] == p;
        }
      }
    }
  }

  /** Inserting a row for an entry not yet listed keeps one row per entry. */
  lemma {:induction false} InsertByDateIdsDistinct(s: seq<IdDatePair>, x: IdDatePair)
    requires IdsDistinct(s) && forall p | p in s :: p.id != x.id
    ensures IdsDistinct(InsertByDate(s, x))
  {
    if s == [] || x.date >= s[0].date {
      assert InsertByDate(s, x) == [x] + s;
    } else {
      var rest := InsertByDate(s[1..], x);
      InsertByDateIdsDistinct(s[1..], x);
      InsertByDateMembers(s[1..], x);
      assert InsertByDate(s, x) == [s[0]] + rest;
      forall p | p in rest
        ensures p.id != s[0].id
      {
        if p != x {
          var i :| 0 <= i < |s[1..]| && s[1..][i] == p;
          assert s[i + 1] == p;
        }
      }
    }
  }
}
