/**
 Inserting link rows in batches: a row that the target refuses is passed over, but the rollback
 also takes back the rows of its batch that came before it.
 */
module LinkStage {
  import opened Options
  import opened Sequences
  import opened LegacyModel
  import opened BiblioStage

  const LINK_BATCH: nat := 500

  // ── Which rows survive the rollbacks ───────────────────────────────────────

  /** How many rows of a batch are up to and including the last one that is refused. */
  function Undone<T>(batch: seq<T>, valid: T -> bool): (k: nat)
    ensures k <= |batch|
  {
    if batch == [] then 0
    else if valid(batch[|batch| - 1]) then Undone(batch[..|batch| - 1], valid)
    else |batch|
  }

  /** The rows behind the last one that is refused. */
  function AfterLastFailure<T>(batch: seq<T>, valid: T -> bool): seq<T> {
    batch[Undone(batch, valid)..]
  }

  function Surviving<T>(links: seq<T>, valid: T -> bool): seq<T> {
    if |links| <= LINK_BATCH then AfterLastFailure(links, valid)
    else AfterLastFailure(links[..LINK_BATCH], valid) + Surviving(links[LINK_BATCH..], valid)
  }

  /** Nothing from row `i` to the end of its batch is refused. */
  ghost predicate Survives<T>(links: seq<T>, valid: T -> bool, i: nat)
    requires i < |links|
  {
    forall j :: i <= j < |links| && j / 500 == i / 500 ==> valid(links[j])
  }

  ghost predicate AcceptedFrom<T>(batch: seq<T>, valid: T -> bool, i: nat) {
    forall j :: i <= j < |batch| ==> valid(batch[j])
  }

  lemma {:induction false} UndoneIff<T>(batch: seq<T>, valid: T -> bool, i: nat)
    requires i < |batch|
    ensures i >= Undone(batch, valid) <==> AcceptedFrom(batch, valid, i)
  {
    var n := |batch| - 1;
    if valid(batch[n]) && i < n {
      UndoneIff(batch[..n], valid, i);
      assert AcceptedFrom(batch[..n], valid, i) <==> AcceptedFrom(batch, valid, i) by {
        assert forall j :: i <= j < n ==> batch[..n][j] == batch[j];
      }
    }
  }

  lemma AfterLastFailureSnoc<T>(batch: seq<T>, x: T, valid: T -> bool)
    ensures AfterLastFailure(batch + [x], valid) == if valid(x) then AfterLastFailure(batch, valid) + [x] else []
  {
    assert (batch + [x])[..|batch|] == batch;
  }

  /** A row is kept exactly when it is accepted together with all later rows of its batch. */
  lemma {:induction false} SurvivesIff<T>(links: seq<T>, valid: T -> bool)
    ensures forall i :: 0 <= i < |links| && Survives(links, valid, i) ==> links[i] in Surviving(links, valid)
    ensures forall l :: l in Surviving(links, valid) ==>
              exists i :: 0 <= i < |links| && links[i] == l && Survives(links, valid, i)
    ensures forall l :: l in Surviving(links, valid) ==> l in links && valid(l)
  {
    if |links| <= LINK_BATCH {
      assert links == links[..|links|];
      WithinBatch(links, links, valid);
    } else {
      var first, rest := links[..LINK_BATCH], links[LINK_BATCH..];
      WithinBatch(links, first, valid);
      SurvivesIff(rest, valid);
      LaterBatches(links, valid);
      forall i | 0 <= i < |links| && Survives(links, valid, i) ensures links[i] in Surviving(links, valid) {
        if i >= LINK_BATCH {
          assert Survives(rest, valid, i - LINK_BATCH) && rest[i - LINK_BATCH] == links[i];
        }
      }
      forall l | l in Surviving(links, valid)
        ensures exists i :: 0 <= i < |links| && links[i] == l && Survives(links, valid, i)
      {
        if l !in AfterLastFailure(first, valid) {
          var i :| 0 <= i < |rest| && rest[i] == l && Survives(rest, valid, i);
          assert links[i + LINK_BATCH] == l && Survives(links, valid, i + LINK_BATCH);
        }
      }
    }
    forall l | l in Surviving(links, valid) ensures l in links && valid(l) {
      var i :| 0 <= i < |links| && links[i] == l && Survives(links, valid, i);
      assert valid(links[i]);
    }
  }

  lemma {:induction false} LaterBatches<T>(links: seq<T>, valid: T -> bool)
    requires |links| > LINK_BATCH
    ensures var rest := links[LINK_BATCH..];
      forall i :: 0 <= i < |rest| ==>
        rest[i] == links[i + LINK_BATCH] && (Survives(rest, valid, i) <==> Survives(links, valid, i + LINK_BATCH))
  {
    forall i | 0 <= i < |links| - LINK_BATCH
      ensures Survives(links[LINK_BATCH..], valid, i) <==> Survives(links, valid, i + LINK_BATCH)
    {
      LaterBatch(links, valid, i);
    }
  }

  lemma LaterBatch<T>(links: seq<T>, valid: T -> bool, i: nat)
    requires i + LINK_BATCH < |links|
    ensures Survives(links[LINK_BATCH..], valid, i) <==> Survives(links, valid, i + LINK_BATCH)
  {
    var rest := links[LINK_BATCH..];
    if Survives(rest, valid, i) {
      forall j | i + LINK_BATCH <= j < |links| && j / LINK_BATCH == (i + LINK_BATCH) / LINK_BATCH
        ensures valid(links[j])
      {
        assert valid(rest[j - LINK_BATCH]);
      }
    }
    if Survives(links, valid, i + LINK_BATCH) {
      forall j | i <= j < |rest| && j / LINK_BATCH == i / LINK_BATCH ensures valid(rest[j]) {
        assert valid(links[j + LINK_BATCH]);
      }
    }
  }

  lemma SurvivesInFirst<T>(links: seq<T>, first: seq<T>, valid: T -> bool, i: nat)
    requires |first| == (if |links| < LINK_BATCH then |links| else LINK_BATCH) && first == links[..|first|]
    requires i < |first|
    ensures Survives(links, valid, i) <==> i >= Undone(first, valid)
  {
    UndoneIff(first, valid, i);
    assert forall j :: i <= j < |links| ==> (j / LINK_BATCH == i / LINK_BATCH <==> j < |first|);
    assert forall j :: 0 <= j < |first| ==> first[j] == links[j];
    if AcceptedFrom(first, valid, i) {
      forall j | i <= j < |links| && j / LINK_BATCH == i / LINK_BATCH ensures valid(links[j]) {
        assert valid(first[j]);
      }
    }
    if Survives(links, valid, i) {
      forall j | i <= j < |first| ensures valid(first[j]) {
        assert valid(links[j]);
      }
    }
  }

  lemma WithinBatch<T>(links: seq<T>, first: seq<T>, valid: T -> bool)
    requires |first| == (if |links| < LINK_BATCH then |links| else LINK_BATCH) && first == links[..|first|]
    ensures forall i :: 0 <= i < |first| ==> (Survives(links, valid, i) ==> links[i] in AfterLastFailure(first, valid))
    ensures forall l :: l in AfterLastFailure(first, valid) ==>
              exists i :: 0 <= i < |links| && links[i] == l && Survives(links, valid, i)
  {
    var k := Undone(first, valid);
    forall i | 0 <= i < |first| && Survives(links, valid, i) ensures links[i] in AfterLastFailure(first, valid) {
      SurvivesInFirst(links, first, valid, i);
      assert first[k..][i - k] == links[i];
    }
    forall l | l in AfterLastFailure(first, valid)
      ensures exists i :: 0 <= i < |links| && links[i] == l && Survives(links, valid, i)
    {
      var m :| 0 <= m < |first[k..]| && first[k..][m] == l;
      SurvivesInFirst(links, first, valid, m + k);
      assert links[m + k] == l;
    }
  }

  /** No row is lost exactly when no row is refused. */
  lemma {:induction false} AllSurviveIff<T>(links: seq<T>, valid: T -> bool)
    ensures Surviving(links, valid) == links <==> forall l :: l in links ==> valid(l)
  {
    SurvivesIff(links, valid);
    if forall l :: l in links ==> valid(l) {
      AllSurvive(links, valid);
    }
  }

  lemma {:induction false} AllSurvive<T>(links: seq<T>, valid: T -> bool)
    requires forall l :: l in links ==> valid(l)
    ensures Surviving(links, valid) == links
  {
    if |links| <= LINK_BATCH {
      WholeBatch(links, valid);
    } else {
      var first, rest := links[..LINK_BATCH], links[LINK_BATCH..];
      assert links == first + rest;
      WholeBatch(first, valid);
      AllSurvive(rest, valid);
    }
  }

  lemma {:induction false} WholeBatch<T>(batch: seq<T>, valid: T -> bool)
    requires forall l :: l in batch ==> valid(l)
    ensures AfterLastFailure(batch, valid) == batch
  {
    if batch != [] {
      assert forall j :: 0 <= j < |batch| ==> batch[j] in batch;
      UndoneIff(batch, valid, 0);
    }
  }

  // ── Series and collections ─────────────────────────────────────────────────

  /** The foreign keys of `biblio_series` and `biblio_collections`. */
  function ValidLink(biblioIds: set<int>, otherIds: set<int>): Link -> bool {
    (l: Link) => l.biblioId in biblioIds && l.otherId in otherIds
  }

  function LinkKey(l: Link): (int, int) {
    (l.biblioId, l.otherId)
  }

  /** The volume of the first link that has a key. */
  function FirstVolume(links: seq<Link>, key: (int, int)): Option<Option<int>> {
    if links == [] then None
    else
      var n := |links| - 1;
      if FirstVolume(links[..n], key).Some? then FirstVolume(links[..n], key)
      else if LinkKey(links[n]) == key then Some(links[n].volume)
      else None
  }

  /** The table after inserting links, ON CONFLICT DO NOTHING: the first of a key stays. */
  ghost predicate LinkTable(links: seq<Link>, table: map<(int, int), Option<int>>) {
    forall k :: (if k in table then Some(table[k]) else None) == FirstVolume(links, k)
  }

  lemma LinkTableStep(links: seq<Link>, l: Link, table: map<(int, int), Option<int>>)
    requires LinkTable(links, table)
    ensures LinkTable(links + [l], if LinkKey(l) in table then table else table[LinkKey(l) := l.volume])
  {
    assert (links + [l])[..|links|] == links;
  }

  lemma LinkBatchStep(batch: seq<Link>, j: nat, valid: Link -> bool, before: seq<Link>,
                      committed: map<(int, int), Option<int>>, table: map<(int, int), Option<int>>)
    requires j < |batch| && LinkTable(before, committed)
    requires LinkTable(before + AfterLastFailure(batch[..j], valid), table)
    ensures LinkTable(before + AfterLastFailure(batch[..j + 1], valid),
                      if !valid(batch[j]) then committed
                      else if LinkKey(batch[j]) in table then table
                      else table[LinkKey(batch[j]) := batch[j].volume])
  {
    var l, kept := batch[j], AfterLastFailure(batch[..j], valid);
    assert batch[..j + 1] == batch[..j] + [l];
    AfterLastFailureSnoc(batch[..j], l, valid);
    if valid(l) {
      LinkTableStep(before + kept, l, table);
      ConcatAssociative(before, kept, [l]);
    } else {
      assert before + [] == before;
    }
  }

  lemma {:induction false} FirstVolumeIsOfALink(links: seq<Link>, key: (int, int))
    ensures FirstVolume(links, key).Some? <==> exists l :: l in links && LinkKey(l) == key
    ensures FirstVolume(links, key).Some? ==>
              exists l :: l in links && LinkKey(l) == key && Some(l.volume) == FirstVolume(links, key)
  {
    if links != [] {
      var n := |links| - 1;
      FirstVolumeIsOfALink(links[..n], key);
      assert links == links[..n] + [links[n]];
    }
  }

  /** A kind of link: its rows belong to migrated biblios. */
  ghost predicate LinksOwnBiblio(link: LegacyBiblio -> Option<Link>) {
    forall b :: link(b).Some? ==> link(b).value.biblioId == b.id && !IsSkipped(b)
  }

  /** The table holds exactly the surviving links, each under its key and with its own volume. */
  ghost predicate LinksStored(rows: seq<LegacyBiblio>, link: LegacyBiblio -> Option<Link>, otherIds: set<int>,
                              table: map<(int, int), Option<int>>) {
    var kept := Surviving(FilterMap(rows, link), ValidLink(KeptIds(rows), otherIds));
    && (forall l :: l in kept ==> LinkKey(l) in table && table[LinkKey(l)] == l.volume)
    && (forall k :: k in table ==> exists l :: l in kept && LinkKey(l) == k)
  }

  lemma LinksAreStored(rows: seq<LegacyBiblio>, link: LegacyBiblio -> Option<Link>, otherIds: set<int>,
                       table: map<(int, int), Option<int>>)
    requires BibliosDistinct(rows) && LinksOwnBiblio(link)
    requires LinkTable(Surviving(FilterMap(rows, link), ValidLink(KeptIds(rows), otherIds)), table)
    ensures LinksStored(rows, link, otherIds, table)
  {
    var links, valid := FilterMap(rows, link), ValidLink(KeptIds(rows), otherIds);
    var kept := Surviving(links, valid);
    SurvivesIff(links, valid);
    FilterMapPreimage(rows, link);
    forall l | l in kept ensures LinkKey(l) in table && table[LinkKey(l)] == l.volume {
      FirstVolumeIsOfALink(kept, LinkKey(l));
      var other :| other in kept && LinkKey(other) == LinkKey(l) && Some(other.volume) == FirstVolume(kept, LinkKey(l));
      OneLinkPerBiblio(rows, link, l, other);
    }
    forall k | k in table ensures exists l :: l in kept && LinkKey(l) == k {
      FirstVolumeIsOfALink(kept, k);
    }
  }

  lemma OneLinkPerBiblio(rows: seq<LegacyBiblio>, link: LegacyBiblio -> Option<Link>, l: Link, other: Link)
    requires BibliosDistinct(rows) && LinksOwnBiblio(link)
    requires l in FilterMap(rows, link) && other in FilterMap(rows, link) && l.biblioId == other.biblioId
    ensures l == other
  {
    FilterMapPreimage(rows, link);
    var b :| b in rows && link(b) == Some(l);
    var c :| c in rows && link(c) == Some(other);
  }

  /** Every link row names a migrated biblio and an existing series or collection. */
  lemma LinksRefer(rows: seq<LegacyBiblio>, link: LegacyBiblio -> Option<Link>, otherIds: set<int>,
                   table: map<(int, int), Option<int>>)
    requires LinksStored(rows, link, otherIds, table)
    ensures forall k :: k in table ==> k.0 in KeptIds(rows) && k.1 in otherIds
  {
    SurvivesIff(FilterMap(rows, link), ValidLink(KeptIds(rows), otherIds));
  }

  /** No link of a migrated biblio is lost exactly when all of them name an existing series or collection. */
  lemma NoLinkLostIff(rows: seq<LegacyBiblio>, link: LegacyBiblio -> Option<Link>, otherIds: set<int>,
                      table: map<(int, int), Option<int>>)
    requires LinksOwnBiblio(link) && LinksStored(rows, link, otherIds, table)
    ensures (forall b :: b in rows && link(b).Some? ==> LinkKey(link(b).value) in table)
      <==> forall b :: b in rows && link(b).Some? ==> link(b).value.otherId in otherIds
  {
    var links, valid := FilterMap(rows, link), ValidLink(KeptIds(rows), otherIds);
    LinksRefer(rows, link, otherIds, table);
    FilterMapPreimage(rows, link);
    if forall b :: b in rows && link(b).Some? ==> link(b).value.otherId in otherIds {
      AllSurvive(links, valid);
      forall b | b in rows && link(b).Some? ensures LinkKey(link(b).value) in table {
        assert link(b).value in links;
      }
    }
    if forall b :: b in rows && link(b).Some? ==> LinkKey(link(b).value) in table {
      forall b | b in rows && link(b).Some? ensures link(b).value.otherId in otherIds {
        assert LinkKey(link(b).value).1 == link(b).value.otherId;
      }
    }
  }

  // ── Authors ────────────────────────────────────────────────────────────────

  const MAX_SMALLINT := 32767

  /** The foreign keys of `biblio_authors` and the range of its position. */
  function ValidAuthor(biblioIds: set<int>, authorIds: set<int>): AuthorLink -> bool {
    (l: AuthorLink) => l.biblioId in biblioIds && l.authorId in authorIds && l.position <= MAX_SMALLINT
  }

  predicate SameAuthorship(l: AuthorLink, m: AuthorLink) {
    l.biblioId == m.biblioId && l.authorId == m.authorId && l.function_ == m.function_
  }

  predicate StoredAlready(table: seq<AuthorLink>, l: AuthorLink) {
    exists m :: m in table && SameAuthorship(l, m)
  }

  /** Inserting one link, ON CONFLICT DO NOTHING; a NULL function never conflicts. */
  function WithAuthor(table: seq<AuthorLink>, l: AuthorLink): seq<AuthorLink> {
    if l.function_.None? || !StoredAlready(table, l) then table + [l] else table
  }

  /** The author table after inserting links into an empty one. */
  function StoredAuthors(links: seq<AuthorLink>): seq<AuthorLink> {
    if links == [] then [] else WithAuthor(StoredAuthors(links[..|links| - 1]), links[|links| - 1])
  }

  lemma AuthorBatchStep(batch: seq<AuthorLink>, j: nat, valid: AuthorLink -> bool, before: seq<AuthorLink>)
    requires j < |batch|
    ensures StoredAuthors(before + AfterLastFailure(batch[..j + 1], valid))
         == if !valid(batch[j]) then StoredAuthors(before)
            else WithAuthor(StoredAuthors(before + AfterLastFailure(batch[..j], valid)), batch[j])
  {
    var l, kept := batch[j], AfterLastFailure(batch[..j], valid);
    assert batch[..j + 1] == batch[..j] + [l];
    AfterLastFailureSnoc(batch[..j], l, valid);
    if valid(l) {
      ConcatAssociative(before, kept, [l]);
      assert (before + kept + [l])[..|before + kept|] == before + kept;
    } else {
      assert before + [] == before;
    }
  }

  /** No authorship is lost or invented. */
  lemma {:induction false} AuthorsAreStored(links: seq<AuthorLink>)
    ensures forall l :: l in StoredAuthors(links) ==> l in links
    ensures forall l :: l in links ==> StoredAlready(StoredAuthors(links), l)
  {
    if links != [] {
      var n := |links| - 1;
      AuthorsAreStored(links[..n]);
      assert links == links[..n] + [links[n]];
      var before, after := StoredAuthors(links[..n]), StoredAuthors(links);
      forall l | l in links ensures StoredAlready(after, l) {
        if l in links[..n] {
          StaysStored(before, after, l);
        } else if after != before {
          assert l in after && SameAuthorship(l, l);
        }
      }
    }
  }

  lemma StaysStored(before: seq<AuthorLink>, after: seq<AuthorLink>, l: AuthorLink)
    requires StoredAlready(before, l) && forall m :: m in before ==> m in after
    ensures StoredAlready(after, l)
  {
  }

  ghost predicate StoredOnce(table: seq<AuthorLink>) {
    forall i, j :: 0 <= i < j < |table| && table[i].function_.Some? ==> !SameAuthorship(table[i], table[j])
  }

  /** An authorship with a function is stored only once. */
  lemma {:induction false} AuthorsStoredOnce(links: seq<AuthorLink>)
    ensures StoredOnce(StoredAuthors(links))
  {
    if links != [] {
      AuthorsStoredOnce(links[..|links| - 1]);
      StoredOnceMore(StoredAuthors(links[..|links| - 1]), links[|links| - 1]);
    }
  }

  lemma StoredOnceMore(table: seq<AuthorLink>, l: AuthorLink)
    requires StoredOnce(table)
    ensures StoredOnce(WithAuthor(table, l))
  {
    var after := WithAuthor(table, l);
    forall i, j | 0 <= i < j < |after| && after[i].function_.Some? ensures !SameAuthorship(after[i], after[j]) {
      if j == |table| && l.function_.Some? {
        assert table[i] in table && (SameAuthorship(table[i], l) ==> SameAuthorship(l, table[i]));
      }
    }
  }

  /** Every author row names a migrated biblio and an existing author. */
  lemma AuthorsRefer(links: seq<AuthorLink>, biblioIds: set<int>, authorIds: set<int>)
    ensures forall l :: l in StoredAuthors(Surviving(links, ValidAuthor(biblioIds, authorIds))) ==>
              l.biblioId in biblioIds && l.authorId in authorIds
  {
    AuthorsAreStored(Surviving(links, ValidAuthor(biblioIds, authorIds)));
    SurvivesIff(links, ValidAuthor(biblioIds, authorIds));
  }
}
