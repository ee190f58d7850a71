/** The two registries give the same answers after any sequence of upserts, failed ones included. */
module RegistryRuns {
  import opened Basics
  import opened Options
  import opened Models
  import opened Registries

  /** One call of the database registry, with the ids it draws and where the database fails it. */
  datatype Attempt = Attempt(org: UUID, manifest: SkillManifest, skillId: UUID, versionId: UUID, failure: Failure)

  function Try(t: Tables, a: Attempt): Option<Tables> {
    PgUpsert(t, a.org, a.manifest, a.skillId, a.versionId, a.failure)
  }

  /** The tables after a sequence of attempts: failed transactions roll back. */
  function PgRun(attempts: seq<Attempt>): Tables {
    if attempts == [] then EMPTY_TABLES
    else
      var t := PgRun(attempts[..|attempts| - 1]);
      match Try(t, attempts[|attempts| - 1])
      case None => t
      case Some(t') => t'
  }

  /** The attempts that committed. */
  function Committed(attempts: seq<Attempt>): seq<Upserted> {
    if attempts == [] then []
    else
      var front, a := attempts[..|attempts| - 1], attempts[|attempts| - 1];
      Committed(front) + if Try(PgRun(front), a).Some? then [Upserted(a.org, a.manifest)] else []
  }

  /** The in-memory registry after the same successful upserts. */
  function MemRun(history: seq<Upserted>): Skills {
    if history == [] then map[]
    else
      var u := history[|history| - 1];
      MemUpsert(MemRun(history[..|history| - 1]), u.org, u.manifest)
  }

  ghost predicate AllValid(history: seq<Upserted>) {
    forall i :: 0 <= i < |history| ==> ValidNames(history[i].manifest)
  }

  // ---------- the tables ----------

  lemma {:induction false} TablesRepresentCommitted(attempts: seq<Attempt>)
    ensures Represents(PgRun(attempts), Committed(attempts))
  {
    hide Represents, PgUpsert;
    if attempts == [] {
      EmptyRepresents();
    } else {
      var front, a := attempts[..|attempts| - 1], attempts[|attempts| - 1];
      TablesRepresentCommitted(front);
      if Try(PgRun(front), a).Some? {
        UpsertRepresents(PgRun(front), Committed(front), a.org, a.manifest, a.skillId, a.versionId, a.failure);
      } else {
        assert Committed(front) + [] == Committed(front);
      }
    }
  }

  /** The attempt commits next, by what was committed before and the ids it draws. */
  ghost predicate WillCommit(attempts: seq<Attempt>, a: Attempt) {
    var history, key := Committed(attempts), Key(a.org, a.manifest.namespace, a.manifest.name);
    && a.failure == NoFailure
    && (Latest(history, key) == None ==> a.skillId !in PgRun(attempts).skills)
    && (LatestOf(history, key, a.manifest.version) == None ==> a.versionId !in PgRun(attempts).versions)
  }

  lemma AttemptCommits(attempts: seq<Attempt>, a: Attempt)
    ensures Committed(attempts + [a]) ==
            Committed(attempts) + if WillCommit(attempts, a) then [Upserted(a.org, a.manifest)] else []
  {
    hide PgUpsert, Latest, LatestOf, Represents;
    assert (attempts + [a])[..|attempts|] == attempts;
    TablesRepresentCommitted(attempts);
    UpsertCommits(PgRun(attempts), Committed(attempts), a.org, a.manifest, a.skillId, a.versionId, a.failure);
  }

  /** No two attempts draw the same id. */
  ghost predicate FreshIds(attempts: seq<Attempt>) {
    forall i, j :: 0 <= i < j < |attempts| ==>
      attempts[i].skillId != attempts[j].skillId && attempts[i].versionId != attempts[j].versionId
  }

  ghost predicate SkillIdDrawn(attempts: seq<Attempt>, id: UUID) {
    exists i :: 0 <= i < |attempts| && attempts[i].skillId == id
  }

  ghost predicate VersionIdDrawn(attempts: seq<Attempt>, id: UUID) {
    exists i :: 0 <= i < |attempts| && attempts[i].versionId == id
  }

  lemma DrawnStays(attempts: seq<Attempt>, a: Attempt)
    ensures forall id :: SkillIdDrawn(attempts, id) ==> SkillIdDrawn(attempts + [a], id)
    ensures forall id :: VersionIdDrawn(attempts, id) ==> VersionIdDrawn(attempts + [a], id)
    ensures SkillIdDrawn(attempts + [a], a.skillId) && VersionIdDrawn(attempts + [a], a.versionId)
  {
    var all := attempts + [a];
    forall id | SkillIdDrawn(attempts, id)
      ensures SkillIdDrawn(all, id)
    {
      var i :| 0 <= i < |attempts| && attempts[i].skillId == id;
      assert all[i].skillId == id;
    }
    forall id | VersionIdDrawn(attempts, id)
      ensures VersionIdDrawn(all, id)
    {
      var i :| 0 <= i < |attempts| && attempts[i].versionId == id;
      assert all[i].versionId == id;
    }
    assert all[|attempts|] == a;
  }

  lemma UpsertAddsIds(t: Tables, a: Attempt)
    requires SkillsValid(t) && VersionsValid(t) && Try(t, a).Some?
    ensures Try(t, a).value.skills.Keys <= t.skills.Keys + {a.skillId}
    ensures Try(t, a).value.versions.Keys <= t.versions.Keys + {a.versionId}
  {
  }

  lemma {:induction false} IdsAreDrawn(attempts: seq<Attempt>)
    ensures forall id :: id in PgRun(attempts).skills ==> SkillIdDrawn(attempts, id)
    ensures forall id :: id in PgRun(attempts).versions ==> VersionIdDrawn(attempts, id)
  {
    if attempts != [] {
      hide Try, SkillIdDrawn, VersionIdDrawn, SkillMatches, VersionMatches, SkillsValid, VersionsValid;
      var front, a := attempts[..|attempts| - 1], attempts[|attempts| - 1];
      assert attempts == front + [a];
      IdsAreDrawn(front);
      DrawnStays(front, a);
      if Try(PgRun(front), a).Some? {
        TablesRepresentCommitted(front);
        UpsertAddsIds(PgRun(front), a);
      }
    }
  }

  /** The attempts that the database does not fail on its own account. */
  function Unfailed(attempts: seq<Attempt>): seq<Upserted> {
    if attempts == [] then []
    else
      var a := attempts[|attempts| - 1];
      Unfailed(attempts[..|attempts| - 1]) + if a.failure == NoFailure then [Upserted(a.org, a.manifest)] else []
  }

  /** If every attempt draws fresh ids, all attempts commit that the database does not fail: publishing a new
      skill, a new version, or a version once more. */
  lemma {:induction false} NoAttemptIsLost(attempts: seq<Attempt>)
    requires FreshIds(attempts)
    ensures Committed(attempts) == Unfailed(attempts)
  {
    if attempts != [] {
      hide Committed, PgRun, Latest, LatestOf;
      var front, a := attempts[..|attempts| - 1], attempts[|attempts| - 1];
      assert attempts == front + [a];
      NoAttemptIsLost(front);
      IdsAreDrawn(front);
      AttemptCommits(front, a);
    } else {
      assert Committed(attempts) == [];
    }
  }

  // ---------- the map ----------

  lemma MemUpsertThenGet(skills: Skills, u: Upserted, org: UUID, namespace: string, name: string)
    requires ValidNames(u.manifest)
    ensures MemGet(MemUpsert(skills, u.org, u.manifest), org, namespace, name) ==
            if KeyOf(u.org, u.manifest) == Key(org, namespace, name) then Some(u.manifest)
            else MemGet(skills, org, namespace, name)
  {
    RegistryKeyIsInjective(u.manifest, namespace, name);
  }

  /** The map answers every lookup, of names valid or not, with what was last published there. */
  lemma {:induction false} MapHoldsLatest(history: seq<Upserted>, org: UUID, namespace: string, name: string)
    requires AllValid(history)
    ensures MemGet(MemRun(history), org, namespace, name) == Latest(history, Key(org, namespace, name))
  {
    if history != [] {
      var front, u := history[..|history| - 1], history[|history| - 1];
      MapHoldsLatest(front, org, namespace, name);
      hide MemGet, ValidNames;
      assert ValidNames(history[|history| - 1].manifest);
      MemUpsertThenGet(MemRun(front), u, org, namespace, name);
    }
  }

  /** Validation is what makes this so: two skills whose names hold slashes can share one key of the map,
      and the later one hides the earlier. */
  lemma UnvalidatedNamesCollide(org: UUID, m: SkillManifest)
    ensures var one := Upserted(org, m.(namespace := "a/b", name := "c"));
      var other := Upserted(org, m.(namespace := "a", name := "b/c"));
      && MemGet(MemRun([one, other]), org, "a/b", "c") == Some(other.manifest)
      && Latest([one, other], Key(org, "a/b", "c")) == Some(one.manifest)
      && one.manifest != other.manifest
  {
    var one := Upserted(org, m.(namespace := "a/b", name := "c"));
    var other := Upserted(org, m.(namespace := "a", name := "b/c"));
    assert other.manifest.QualifiedName() == "a/b" + "/" + "c";
    assert [one, other][..1] == [one] && [one][..0] == [];
    assert |one.manifest.namespace| != |other.manifest.namespace|;
    assert Latest([one], Key(org, "a/b", "c")) == Some(one.manifest);
  }

  lemma {:induction false} MapIsKeyedByName(history: seq<Upserted>, org: UUID)
    ensures KeyedByName(BucketOf(MemRun(history), org))
  {
    if history != [] {
      MapIsKeyedByName(history[..|history| - 1], org);
    }
  }

  /** A bucket's manifests are the current ones, so that listing the map lists the current skills. */
  lemma MapListsCurrent(history: seq<Upserted>, org: UUID, out: seq<SkillManifest>)
    requires AllValid(history)
    requires forall m :: m in out <==> m in BucketOf(MemRun(history), org).Values
    requires KeyedByName(BucketOf(MemRun(history), org)) ==> NoDuplicates(out)
    ensures ListsCurrent(out, history, org)
  {
    hide NoDuplicates, MemRun;
    var bucket := BucketOf(MemRun(history), org);
    MapIsKeyedByName(history, org);
    forall m
      ensures m in out <==> Latest(history, KeyOf(org, m)) == Some(m)
    {
      MapHoldsLatest(history, org, m.namespace, m.name);
      assert m in bucket.Values <==> m.QualifiedName() in bucket && bucket[m.QualifiedName()] == m;
    }
  }

  // ---------- the two against each other ----------

  /** The rows of the `Get` query. */
  ghost function Joined(t: Tables, key: Key): set<(UUID, UUID)> {
    set s, v | s in t.skills && v in t.versions && t.Joins(s, v) && t.skills[s].key == key :: (s, v)
  }

  /** The query finds one row, with the manifest, or none. */
  ghost predicate FindsOne(t: Tables, key: Key, found: Option<SkillManifest>) {
    match found
    case None => Joined(t, key) == {}
    case Some(m) => exists s, v :: Joined(t, key) == {(s, v)} && v in t.versions && t.versions[v].manifest == m
  }

  lemma FindsLatest(t: Tables, history: seq<Upserted>, key: Key)
    requires Represents(t, history)
    ensures FindsOne(t, key, Latest(history, key))
  {
    hide Represents, Latest;
    JoinFindsLatest(t, history);
    LatestIsJoined(t, history, key);
    var rows := Joined(t, key);
    if Latest(history, key).None? {
      assert forall r :: r !in rows;
    } else {
      var s, v :| t.Joins(s, v) && t.skills[s].key == key;
      forall r | r in rows
        ensures r == (s, v)
      {
        assert IsRow(t, key.org, r) && IsRow(t, key.org, (s, v));
        SameKeySameRow(t, history, key.org, r, (s, v));
      }
      assert (s, v) in rows;
      assert rows == {(s, v)};
    }
  }

  /** After any attempts, the database finds for every key one row or none, as the map does. */
  lemma LookupsAgree(attempts: seq<Attempt>, org: UUID, namespace: string, name: string)
    requires AllValid(Committed(attempts))
    ensures FindsOne(PgRun(attempts), Key(org, namespace, name),
                     MemGet(MemRun(Committed(attempts)), org, namespace, name))
  {
    hide *;
    TablesRepresentCommitted(attempts);
    MapHoldsLatest(Committed(attempts), org, namespace, name);
    FindsLatest(PgRun(attempts), Committed(attempts), Key(org, namespace, name));
  }

  /** With fresh ids, what the database finds is what was last published without a failure. */
  lemma LastPublishedIsFound(attempts: seq<Attempt>, key: Key)
    requires FreshIds(attempts)
    ensures FindsOne(PgRun(attempts), key, Latest(Unfailed(attempts), key))
  {
    hide *;
    NoAttemptIsLost(attempts);
    TablesRepresentCommitted(attempts);
    FindsLatest(PgRun(attempts), Committed(attempts), key);
  }

  lemma {:induction false} CountedOnce(list: seq<SkillManifest>, m: SkillManifest)
    requires NoDuplicates(list)
    ensures multiset(list)[m] == if m in list then 1 else 0
  {
    if list != [] {
      var front, last := list[..|list| - 1], list[|list| - 1];
      assert list == front + [last];
      CountedOnce(front, m);
    }
  }

  /** Two lists of an org's current skills are the same up to order, whichever registry they come from. */
  lemma ListsAgree(one: seq<SkillManifest>, other: seq<SkillManifest>, history: seq<Upserted>, org: UUID)
    requires ListsCurrent(one, history, org) && ListsCurrent(other, history, org)
    ensures multiset(one) == multiset(other)
  {
    forall m
      ensures multiset(one)[m] == multiset(other)[m]
    {
      CountedOnce(one, m);
      CountedOnce(other, m);
    }
  }

  /** And two lists in the collation's order, of which the database gives one, are the same. */
  lemma SortedListsAgree(one: seq<SkillManifest>, other: seq<SkillManifest>, history: seq<Upserted>, org: UUID,
      less: Collation)
    requires ListsCurrent(one, history, org) && ListsCurrent(other, history, org) && TotalOrder(less)
    requires Sorted(less, one) && Sorted(less, other)
    ensures one == other
  {
    hide TotalOrder, Sorted, Latest;
    assert forall m :: m in one <==> m in other;
    SameElementsSorted(one, other, org, less);
  }

  lemma {:induction false} SameElementsSorted(one: seq<SkillManifest>, other: seq<SkillManifest>, org: UUID,
      less: Collation)
    requires TotalOrder(less) && Sorted(less, one) && Sorted(less, other)
    requires forall m :: m in one <==> m in other
    ensures one == other
  {
    hide TotalOrder, Before;
    SomeMember(other);
    if one != [] {
      assert one[0] in other;
      FirstAgrees(one, other, org, less);
      FirstIsOnlyFirst(one, org, less);
      FirstIsOnlyFirst(other, org, less);
      assert one == [one[0]] + one[1..] && other == [other[0]] + other[1..];
      forall m
        ensures m in one[1..] <==> m in other[1..]
      {
        assert m in one <==> m == one[0] || m in one[1..];
        assert m in other <==> m == other[0] || m in other[1..];
      }
      SameElementsSorted(one[1..], other[1..], org, less);
    }
  }

  lemma SomeMember(list: seq<SkillManifest>)
    ensures list != [] ==> exists m :: m in list
  {
    assert list != [] ==> list[0] in list;
  }

  lemma FirstAgrees(one: seq<SkillManifest>, other: seq<SkillManifest>, org: UUID, less: Collation)
    requires TotalOrder(less) && Sorted(less, one) && Sorted(less, other)
    requires one != [] && one[0] in other && other[0] in one
    ensures one[0] == other[0]
  {
    hide TotalOrder;
    var k, k' := KeyOf(org, one[0]), KeyOf(org, other[0]);
    BeforeIsTotalOrder(less, k, k', k);
    var i :| 0 <= i < |other| && other[i] == one[0];
    var j :| 0 <= j < |one| && one[j] == other[0];
    assert 0 < i ==> Before(less, k', k);
    assert 0 < j ==> Before(less, k, k');
  }

  lemma FirstIsOnlyFirst(list: seq<SkillManifest>, org: UUID, less: Collation)
    requires TotalOrder(less) && Sorted(less, list) && list != []
    ensures list[0] !in list[1..] && Sorted(less, list[1..])
  {
    hide TotalOrder;
    var k := KeyOf(org, list[0]);
    BeforeIsTotalOrder(less, k, k, k);
    assert forall i :: 1 <= i < |list| ==> Before(less, k, KeyOf(org, list[i]));
  }

  /** What is found under a key was published under it, by that org. */
  lemma {:induction false} LatestWasPublished(history: seq<Upserted>, key: Key)
    ensures Latest(history, key).Some? ==> Upserted(key.org, Latest(history, key).value) in history
    ensures Latest(history, key).Some? ==> KeyOf(key.org, Latest(history, key).value) == key
  {
    if history != [] {
      var front, u := history[..|history| - 1], history[|history| - 1];
      LatestWasPublished(front, key);
      assert history == front + [u];
    }
  }

  // ---------- orgs ----------

  function OfOrg(history: seq<Upserted>, org: UUID): seq<Upserted> {
    if history == [] then []
    else
      var u := history[|history| - 1];
      OfOrg(history[..|history| - 1], org) + if u.org == org then [u] else []
  }

  lemma {:induction false} LatestOfOrg(history: seq<Upserted>, key: Key)
    ensures Latest(OfOrg(history, key.org), key) == Latest(history, key)
  {
    if history != [] {
      var front, u := history[..|history| - 1], history[|history| - 1];
      LatestOfOrg(front, key);
      if u.org == key.org {
        LatestSnoc(OfOrg(front, key.org), u, key, "");
      } else {
        assert OfOrg(front, key.org) + [] == OfOrg(front, key.org);
      }
    }
  }

  lemma {:induction false} BucketOfOrg(history: seq<Upserted>, org: UUID)
    ensures BucketOf(MemRun(OfOrg(history, org)), org) == BucketOf(MemRun(history), org)
  {
    if history != [] {
      var front, u := history[..|history| - 1], history[|history| - 1];
      BucketOfOrg(front, org);
      if u.org == org {
        assert (OfOrg(front, org) + [u])[..|OfOrg(front, org)|] == OfOrg(front, org);
      } else {
        assert OfOrg(front, org) + [] == OfOrg(front, org);
      }
    }
  }

  /** An org's answers depend on that org's upserts alone: two servers that agree on those keep the same bucket
      of the map, find the same manifest or none for every key of the org, and have the same lists to give. */
  lemma OrgsDoNotInterfere(attempts: seq<Attempt>, attempts': seq<Attempt>, org: UUID)
    requires OfOrg(Committed(attempts), org) == OfOrg(Committed(attempts'), org)
    ensures BucketOf(MemRun(Committed(attempts)), org) == BucketOf(MemRun(Committed(attempts')), org)
    ensures forall key: Key, found :: key.org == org ==>
              (FindsOne(PgRun(attempts), key, found) <==> FindsOne(PgRun(attempts'), key, found))
    ensures forall list :: ListsCurrent(list, Committed(attempts), org) <==>
                           ListsCurrent(list, Committed(attempts'), org)
  {
    hide *;
    var history, history' := Committed(attempts), Committed(attempts');
    BucketOfOrg(history, org);
    BucketOfOrg(history', org);
    forall key: Key | key.org == org
      ensures Latest(history, key) == Latest(history', key)
    {
      LatestOfOrg(history, key);
      LatestOfOrg(history', key);
    }
    forall key: Key, found | key.org == org
      ensures FindsOne(PgRun(attempts), key, found) <==> FindsOne(PgRun(attempts'), key, found)
    {
      TablesRepresentCommitted(attempts);
      TablesRepresentCommitted(attempts');
      FindsLatest(PgRun(attempts), history, key);
      FindsLatest(PgRun(attempts'), history', key);
      FindsAtMostOne(PgRun(attempts), key, found, Latest(history, key));
      FindsAtMostOne(PgRun(attempts'), key, found, Latest(history, key));
    }
    forall list
      ensures ListsCurrent(list, history, org) <==> ListsCurrent(list, history', org)
    {
      SameLists(list, history, history', org);
    }
  }

  lemma FindsAtMostOne(t: Tables, key: Key, one: Option<SkillManifest>, other: Option<SkillManifest>)
    requires FindsOne(t, key, other)
    ensures FindsOne(t, key, one) <==> one == other
  {
    hide Joined;
    if FindsOne(t, key, one) && one.Some? && other.Some? {
      var s, v :| Joined(t, key) == {(s, v)} && v in t.versions && t.versions[v].manifest == one.value;
      var s', v' :| Joined(t, key) == {(s', v')} && v' in t.versions && t.versions[v'].manifest == other.value;
      assert (s, v) in {(s', v')};
    }
  }

  lemma SameLists(list: seq<SkillManifest>, history: seq<Upserted>, history': seq<Upserted>, org: UUID)
    requires forall key: Key :: key.org == org ==> Latest(history, key) == Latest(history', key)
    ensures ListsCurrent(list, history, org) <==> ListsCurrent(list, history', org)
  {
    hide Latest;
    assert forall m :: Latest(history, KeyOf(org, m)) == Latest(history', KeyOf(org, m));
  }

  /** Old versions are kept: the versions table has, for every key and version, exactly the manifest last
      published as that version. */
  lemma VersionsAreKept(attempts: seq<Attempt>, key: Key, version: string, m: SkillManifest)
    ensures LatestOf(Committed(attempts), key, version) == Some(m) <==>
            exists v :: v in PgRun(attempts).versions
              && PgRun(attempts).versions[v].skillId in PgRun(attempts).skills
              && PgRun(attempts).skills[PgRun(attempts).versions[v].skillId].key == key
              && PgRun(attempts).versions[v].version == version
              && PgRun(attempts).versions[v].manifest == m
  {
    hide PgRun, Committed, LatestOf, Latest;
    var t, history := PgRun(attempts), Committed(attempts);
    TablesRepresentCommitted(attempts);
    assert SkillMatches(t, history, key);
    assert VersionMatches(t, history, key, version);
    forall v | v in t.versions && t.versions[v].version == version
               && t.versions[v].skillId in t.skills && t.skills[t.versions[v].skillId].key == key
      ensures LatestOf(history, key, version) == Some(t.versions[v].manifest)
    {
      assert VersionKeyOf(t.versions[v]) == VersionKey(t.skillIndex[key], version);
    }
  }
}
