/** The two skill registries: a map keyed by qualified name, and two database tables written in one
    transaction and read back through a join.

    Manifests pass through JSON unchanged. A unique constraint is its index: a map from the
    constrained columns to the row's id. */
module Registries {
  import opened Basics
  import opened Options
  import opened Models

  datatype Key = Key(org: UUID, namespace: string, name: string)

  function KeyOf(org: UUID, m: SkillManifest): Key {
    Key(org, m.namespace, m.name)
  }

  // ---------- what a registry is for ----------

  /** A successful upsert. */
  datatype Upserted = Upserted(org: UUID, manifest: SkillManifest)

  /** The manifest last published under a key. */
  function Latest(history: seq<Upserted>, key: Key): Option<SkillManifest> {
    if history == [] then None
    else
      var u := history[|history| - 1];
      if KeyOf(u.org, u.manifest) == key then Some(u.manifest) else Latest(history[..|history| - 1], key)
  }

  /** The manifest last published under a key with a given version. */
  function LatestOf(history: seq<Upserted>, key: Key, version: string): Option<SkillManifest> {
    if history == [] then None
    else
      var u := history[|history| - 1];
      if KeyOf(u.org, u.manifest) == key && u.manifest.version == version then Some(u.manifest)
      else LatestOf(history[..|history| - 1], key, version)
  }

  ghost predicate NoDuplicates(list: seq<SkillManifest>) {
    forall i, j :: 0 <= i < j < |list| ==> list[i] != list[j]
  }

  /** Every current skill of the org, once. */
  ghost predicate ListsCurrent(list: seq<SkillManifest>, history: seq<Upserted>, org: UUID) {
    && NoDuplicates(list)
    && forall m :: m in list <==> Latest(history, KeyOf(org, m)) == Some(m)
  }

  // ---------- in memory ----------

  type Skills = map<UUID, map<string, SkillManifest>>

  function BucketOf(skills: Skills, org: UUID): map<string, SkillManifest> {
    if org in skills then skills[org] else map[]
  }

  function MemUpsert(skills: Skills, org: UUID, m: SkillManifest): Skills {
    skills[org := BucketOf(skills, org)[m.QualifiedName() := m]]
  }

  function MemGet(skills: Skills, org: UUID, namespace: string, name: string): Option<SkillManifest> {
    var bucket := BucketOf(skills, org);
    var key := namespace + "/" + name;
    if key in bucket then Some(bucket[key]) else None
  }

  class InMemory {
    var skills: Skills

    constructor ()
      ensures skills == map[]
    {
      skills := map[];
    }

    method Upsert(org: UUID, m: SkillManifest) returns (stored: SkillManifest)
      modifies this
      ensures skills == MemUpsert(old(skills), org, m) && stored == m
    {
      if org !in skills {
        skills := skills[org := map[]];
      }
      skills := skills[org := skills[org][m.QualifiedName() := m]];
      return m;
    }

    method Get(org: UUID, namespace: string, name: string) returns (found: Option<SkillManifest>)
      ensures found == MemGet(skills, org, namespace, name)
    {
      if org !in skills {
        return None;
      }
      var key := namespace + "/" + name;
      if key in skills[org] {
        return Some(skills[org][key]);
      }
      return None;
    }

    /** The order is that of a map iteration: any. */
    method List(org: UUID) returns (out: seq<SkillManifest>)
      ensures forall m :: m in out <==> m in BucketOf(skills, org).Values
      ensures KeyedByName(BucketOf(skills, org)) ==> NoDuplicates(out)
    {
      out := [];
      if org !in skills {
        return;
      }
      var bucket := skills[org];
      var todo := bucket.Keys;
      while todo != {}
        invariant todo <= bucket.Keys
        invariant Drawn(bucket, out, bucket.Keys - todo)
        decreases |todo|
      {
        var k :| k in todo;
        assert bucket.Keys - (todo - {k}) == (bucket.Keys - todo) + {k};
        DrawOneMore(bucket, out, bucket.Keys - todo, k);
        todo := todo - {k};
        out := out + [bucket[k]];
      }
      assert bucket.Keys - todo == bucket.Keys;
    }
  }

  ghost predicate KeyedByName(bucket: map<string, SkillManifest>) {
    forall k :: k in bucket ==> bucket[k].QualifiedName() == k
  }

  /** The list holds the manifests under the keys `done`, and no others. */
  ghost predicate Drawn(bucket: map<string, SkillManifest>, out: seq<SkillManifest>, done: set<string>) {
    && (forall m :: m in out <==> exists k :: k in done && k in bucket && bucket[k] == m)
    && (KeyedByName(bucket) ==> NoDuplicates(out))
  }

  lemma DrawOneMore(bucket: map<string, SkillManifest>, out: seq<SkillManifest>, done: set<string>, k: string)
    requires Drawn(bucket, out, done) && k in bucket && k !in done
    ensures Drawn(bucket, out + [bucket[k]], done + {k})
  {
    forall m
      ensures m in out + [bucket[k]] <==> exists j :: j in done + {k} && j in bucket && bucket[j] == m
    {
      if m in out {
        var j :| j in done && j in bucket && bucket[j] == m;
        assert j in done + {k};
      } else if m == bucket[k] {
        assert k in done + {k};
      }
    }
    if KeyedByName(bucket) {
      assert forall j :: j in done && j in bucket ==> bucket[j].QualifiedName() == j != k == bucket[k].QualifiedName();
      assert bucket[k] !in out;
    }
  }

  // ---------- in two tables ----------

  datatype SkillRow = SkillRow(key: Key, description: string, latestVersion: string)
  datatype VersionRow = VersionRow(skillId: UUID, version: string, manifest: SkillManifest)
  datatype VersionKey = VersionKey(skillId: UUID, version: string)

  datatype Tables = Tables(
    skills: map<UUID, SkillRow>,
    versions: map<UUID, VersionRow>,
    skillIndex: map<Key, UUID>,
    versionIndex: map<VersionKey, UUID>
  ) {
    /** Skill and version rows that the queries' join pairs up. */
    predicate Joins(s: UUID, v: UUID)
    {
      && s in skills && v in versions
      && versions[v].skillId == s && versions[v].version == skills[s].latestVersion
    }
  }

  /** UNIQUE (org_id, namespace, name): the index and the skills table mirror each other. */
  ghost predicate SkillsValid(t: Tables) {
    && (forall k :: k in t.skillIndex ==> t.skillIndex[k] in t.skills && t.skills[t.skillIndex[k]].key == k)
    && (forall id :: id in t.skills ==> t.skills[id].key in t.skillIndex && t.skillIndex[t.skills[id].key] == id)
  }

  function VersionKeyOf(row: VersionRow): VersionKey {
    VersionKey(row.skillId, row.version)
  }

  /** UNIQUE (skill_id, version), and skill_id REFERENCES skills(id). */
  ghost predicate VersionsValid(t: Tables) {
    && (forall k :: k in t.versionIndex ==>
          t.versionIndex[k] in t.versions && VersionKeyOf(t.versions[t.versionIndex[k]]) == k)
    && (forall id :: id in t.versions ==>
          VersionKeyOf(t.versions[id]) in t.versionIndex && t.versionIndex[VersionKeyOf(t.versions[id])] == id)
    && (forall k :: k in t.versionIndex ==> k.skillId in t.skills)
  }

  const EMPTY_TABLES := Tables(map[], map[], map[], map[])

  /** `INSERT INTO skills ... ON CONFLICT (org_id, namespace, name) DO UPDATE ... RETURNING id`. Fails on a
      duplicate primary key. */
  function InsertSkill(t: Tables, key: Key, m: SkillManifest, newId: UUID): Option<(Tables, UUID)> {
    var row := SkillRow(key, m.description, m.version);
    if key in t.skillIndex then
      var id := t.skillIndex[key];
      Some((t.(skills := t.skills[id := row]), id))
    else if newId in t.skills then None
    else Some((t.(skills := t.skills[newId := row], skillIndex := t.skillIndex[key := newId]), newId))
  }

  /** `INSERT INTO skill_versions ... ON CONFLICT (skill_id, version) DO UPDATE`. */
  function InsertVersion(t: Tables, skillId: UUID, m: SkillManifest, newId: UUID): Option<Tables> {
    var key := VersionKey(skillId, m.version);
    var row := VersionRow(skillId, m.version, m);
    if key in t.versionIndex then
      Some(t.(versions := t.versions[t.versionIndex[key] := row]))
    else if newId in t.versions then None
    else Some(t.(versions := t.versions[newId := row], versionIndex := t.versionIndex[key := newId]))
  }

  /** Where the database may fail an upsert on its own account. */
  datatype Failure = NoFailure | AtBegin | AtSkill | AtVersion | AtCommit

  /** The whole transaction: the new tables, or None and nothing changed. */
  function PgUpsert(t: Tables, org: UUID, m: SkillManifest, skillId: UUID, versionId: UUID,
      failure: Failure): Option<Tables> {
    if failure != NoFailure then None
    else
      match InsertSkill(t, KeyOf(org, m), m, skillId)
      case None => None
      case Some((t1, id)) => InsertVersion(t1, id, m, versionId)
  }

  class Postgres {
    var tables: Tables

    constructor ()
      ensures tables == EMPTY_TABLES && Represents(tables, [])
    {
      EmptyRepresents();
      tables := EMPTY_TABLES;
    }

    /** `skillId` and `versionId` are the freshly drawn ids. */
    method Upsert(org: UUID, m: SkillManifest, skillId: UUID, versionId: UUID, failure: Failure,
        ghost history: seq<Upserted>)
      returns (stored: Option<SkillManifest>)
      requires Represents(tables, history)
      modifies this
      ensures stored == None <==>
              || failure != NoFailure
              || (Latest(history, Key(org, m.namespace, m.name)) == None && skillId in old(tables).skills)
              || (LatestOf(history, Key(org, m.namespace, m.name), m.version) == None
                  && versionId in old(tables).versions)
      ensures stored == None ==> tables == old(tables)
      ensures stored != None ==> stored == Some(m) && Represents(tables, history + [Upserted(org, m)])
      ensures var after := PgUpsert(old(tables), org, m, skillId, versionId, failure);
        && tables == (if after.Some? then after.value else old(tables))
        && stored == (if after.Some? then Some(m) else None)
    {
      UpsertCommits(tables, history, org, m, skillId, versionId, failure);
      if PgUpsert(tables, org, m, skillId, versionId, failure).Some? {
        UpsertRepresents(tables, history, org, m, skillId, versionId, failure);
      }
      hide Represents, Latest, LatestOf;
      if failure == AtBegin {
        return None;
      }
      var saved := tables;
      var inserted := if failure == AtSkill then None else InsertSkill(tables, KeyOf(org, m), m, skillId);
      if inserted.None? {
        tables := saved;
        return None;
      }
      tables := inserted.value.0;
      var written := if failure == AtVersion then None else InsertVersion(tables, inserted.value.1, m, versionId);
      if written.None? {
        tables := saved;
        return None;
      }
      tables := written.value;
      if failure == AtCommit {
        tables := saved;
        return None;
      }
      return Some(m);
    }

    method Get(org: UUID, namespace: string, name: string, ghost history: seq<Upserted>)
      returns (found: Option<SkillManifest>)
      requires Represents(tables, history)
      ensures found == Latest(history, Key(org, namespace, name))
    {
      var key := Key(org, namespace, name);
      JoinFindsLatest(tables, history);
      LatestIsJoined(tables, history, key);
      var rows := set s, v | s in tables.skills && v in tables.versions
                             && tables.Joins(s, v) && tables.skills[s].key == key :: (s, v);
      if rows == {} {
        assert forall s, v :: tables.Joins(s, v) && tables.skills[s].key == key ==> (s, v) in rows;
        return None;
      }
      var row :| row in rows;
      return Some(tables.versions[row.1].manifest);
    }

    /** `less` is the collation that `ORDER BY s.namespace, s.name` goes by. */
    method List(org: UUID, less: Collation, ghost history: seq<Upserted>) returns (out: seq<SkillManifest>)
      requires Represents(tables, history) && TotalOrder(less)
      ensures ListsCurrent(out, history, org) && Sorted(less, out)
    {
      out := [];
      var todo := set s, v | s in tables.skills && v in tables.versions
                             && tables.Joins(s, v) && tables.skills[s].key.org == org :: (s, v);
      ghost var all := todo;
      assert forall r :: r in all <==> IsRow(tables, org, r);
      hide Represents, Listed, ListsCurrent, IsRow, NoDuplicates, Sorted, TotalOrder, Precede, IsLeast;
      NothingListed(tables, less, org, todo);
      while todo != {}
        invariant todo <= all
        invariant NoDuplicates(out) && Listed(tables, out, all - todo)
        invariant Sorted(less, out) && Precede(tables, less, org, out, todo)
        decreases |todo|
      {
        LeastExists(tables, history, less, org, todo);
        var row :| row in todo && IsLeast(tables, less, todo, row);
        assert all - (todo - {row}) == (all - todo) + {row};
        ListOneMore(tables, history, org, all - todo, out, row);
        SortOneMore(tables, history, less, org, out, todo, row);
        todo := todo - {row};
        out := out + [tables.versions[row.1].manifest];
      }
      assert all - todo == all;
      RowsAreCurrent(tables, history, org, all, out);
    }
  }

  // ---------- the order of a list ----------

  /** The collation's "sorts before". */
  type Collation = (string, string) -> bool

  ghost predicate TotalOrder(less: Collation) {
    && (forall a, b :: less(a, b) ==> !less(b, a))
    && (forall a, b :: a == b || less(a, b) || less(b, a))
    && (forall a, b, c :: less(a, b) && less(b, c) ==> less(a, c))
  }

  predicate Before(less: Collation, one: Key, other: Key) {
    less(one.namespace, other.namespace) || (one.namespace == other.namespace && less(one.name, other.name))
  }

  /** By namespace, and by name within a namespace. */
  ghost predicate Sorted(less: Collation, list: seq<SkillManifest>) {
    forall i, j :: 0 <= i < j < |list| ==>
      || less(list[i].namespace, list[j].namespace)
      || (list[i].namespace == list[j].namespace && less(list[i].name, list[j].name))
  }

  /** The row comes before all the others. */
  predicate IsLeast(t: Tables, less: Collation, rows: set<(UUID, UUID)>, row: (UUID, UUID)) {
    && row.0 in t.skills
    && forall r :: r in rows && r.0 in t.skills ==> r == row || Before(less, t.skills[row.0].key, t.skills[r.0].key)
  }

  /** What is listed comes before all that is still to be. */
  ghost predicate Precede(t: Tables, less: Collation, org: UUID, out: seq<SkillManifest>, todo: set<(UUID, UUID)>) {
    forall i, r :: 0 <= i < |out| && r in todo && r.0 in t.skills ==>
      Before(less, KeyOf(org, out[i]), t.skills[r.0].key)
  }

  lemma BeforeIsTotalOrder(less: Collation, a: Key, b: Key, c: Key)
    requires TotalOrder(less) && a.org == b.org
    ensures Before(less, a, b) ==> !Before(less, b, a)
    ensures a == b || Before(less, a, b) || Before(less, b, a)
    ensures Before(less, a, b) && Before(less, b, c) ==> Before(less, a, c)
  {
  }

  lemma {:induction false} LeastExists(t: Tables, history: seq<Upserted>, less: Collation, org: UUID,
      rows: set<(UUID, UUID)>)
    requires Represents(t, history) && TotalOrder(less)
    requires rows != {} && forall r :: r in rows ==> IsRow(t, org, r)
    ensures exists row :: row in rows && IsLeast(t, less, rows, row)
    decreases |rows|
  {
    hide Represents, TotalOrder, Before;
    var x :| x in rows;
    assert IsRow(t, org, x);
    var rest := rows - {x};
    if rest == {} {
      assert rows == {x};
      assert IsLeast(t, less, rows, x);
    } else {
      LeastExists(t, history, less, org, rest);
      var y :| y in rest && IsLeast(t, less, rest, y);
      assert IsRow(t, org, y);
      SameKeySameRow(t, history, org, x, y);
      BeforeIsTotalOrder(less, t.skills[x.0].key, t.skills[y.0].key, t.skills[y.0].key);
      forall r | r in rest
        ensures IsRow(t, org, r)
        ensures Before(less, t.skills[x.0].key, t.skills[y.0].key) ==>
                  Before(less, t.skills[x.0].key, t.skills[r.0].key)
      {
        assert IsRow(t, org, r);
        BeforeIsTotalOrder(less, t.skills[x.0].key, t.skills[y.0].key, t.skills[r.0].key);
      }
      assert IsLeast(t, less, rows, x) || IsLeast(t, less, rows, y);
    }
  }

  lemma SortOneMore(t: Tables, history: seq<Upserted>, less: Collation, org: UUID, out: seq<SkillManifest>,
      todo: set<(UUID, UUID)>, row: (UUID, UUID))
    requires Represents(t, history) && Sorted(less, out) && Precede(t, less, org, out, todo)
    requires row in todo && IsRow(t, org, row) && IsLeast(t, less, todo, row)
    ensures Sorted(less, out + [t.versions[row.1].manifest])
    ensures Precede(t, less, org, out + [t.versions[row.1].manifest], todo - {row})
  {
    hide Represents;
    JoinFindsLatest(t, history);
    LatestIsLatestOf(history, t.skills[row.0].key);
    assert KeyOf(org, t.versions[row.1].manifest) == t.skills[row.0].key;
  }

  ghost predicate IsRow(t: Tables, org: UUID, r: (UUID, UUID)) {
    t.Joins(r.0, r.1) && t.skills[r.0].key.org == org
  }

  ghost predicate HasManifest(t: Tables, r: (UUID, UUID), m: SkillManifest) {
    r.1 in t.versions && t.versions[r.1].manifest == m
  }

  /** The list holds the manifests of the rows, and no others. */
  ghost predicate Listed(t: Tables, out: seq<SkillManifest>, rows: set<(UUID, UUID)>) {
    forall m :: m in out <==> exists r :: r in rows && HasManifest(t, r, m)
  }

  lemma NothingListed(t: Tables, less: Collation, org: UUID, todo: set<(UUID, UUID)>)
    ensures NoDuplicates([]) && Listed(t, [], {})
    ensures Sorted(less, []) && Precede(t, less, org, [], todo)
  {
  }

  lemma ListOneMore(t: Tables, history: seq<Upserted>, org: UUID, done: set<(UUID, UUID)>,
      out: seq<SkillManifest>, row: (UUID, UUID))
    requires Represents(t, history) && Listed(t, out, done) && NoDuplicates(out)
    requires row !in done && forall r :: r in done + {row} ==> IsRow(t, org, r)
    ensures IsRow(t, org, row)
    ensures Listed(t, out + [t.versions[row.1].manifest], done + {row})
    ensures NoDuplicates(out + [t.versions[row.1].manifest])
  {
    hide Represents;
    assert row in done + {row};
    var m := t.versions[row.1].manifest;
    forall r | r in done
      ensures !HasManifest(t, r, m)
    {
      assert r in done + {row};
      if HasManifest(t, r, m) {
        RowsDiffer(t, history, org, r, row);
      }
    }
    assert m !in out;
    forall m'
      ensures m' in out + [m] <==> exists r :: r in done + {row} && HasManifest(t, r, m')
    {
      if m' in out {
        var r :| r in done && HasManifest(t, r, m');
        assert r in done + {row};
      } else if m' == m {
        assert row in done + {row} && HasManifest(t, row, m);
      }
    }
  }

  // ---------- the tables represent a history ----------

  ghost predicate SkillMatches(t: Tables, history: seq<Upserted>, key: Key) {
    match Latest(history, key)
    case None => key !in t.skillIndex
    case Some(m) =>
      && key in t.skillIndex && t.skillIndex[key] in t.skills
      && t.skills[t.skillIndex[key]] == SkillRow(key, m.description, m.version)
  }

  ghost predicate VersionMatches(t: Tables, history: seq<Upserted>, key: Key, version: string) {
    match LatestOf(history, key, version)
    case None => key in t.skillIndex ==> VersionKey(t.skillIndex[key], version) !in t.versionIndex
    case Some(m) =>
      && key in t.skillIndex
      && var k := VersionKey(t.skillIndex[key], version);
      && k in t.versionIndex && t.versionIndex[k] in t.versions
      && t.versions[t.versionIndex[k]] == VersionRow(t.skillIndex[key], version, m)
  }

  /** The schema's constraints hold; each key's skills row is that of its latest manifest, each key and
      version's row that of the latest manifest with that version, and there are no other rows. */
  ghost predicate Represents(t: Tables, history: seq<Upserted>) {
    && SkillsValid(t) && VersionsValid(t)
    && (forall key :: SkillMatches(t, history, key))
    && (forall key, version :: VersionMatches(t, history, key, version))
  }

  lemma LatestSnoc(history: seq<Upserted>, u: Upserted, key: Key, version: string)
    ensures Latest(history + [u], key) ==
            if KeyOf(u.org, u.manifest) == key then Some(u.manifest) else Latest(history, key)
    ensures LatestOf(history + [u], key, version) ==
            if KeyOf(u.org, u.manifest) == key && u.manifest.version == version then Some(u.manifest)
            else LatestOf(history, key, version)
  {
    assert (history + [u])[..|history|] == history;
  }

  /** A key's latest manifest carries the key's names, and is the latest with its own version. */
  lemma {:induction false} LatestIsLatestOf(history: seq<Upserted>, key: Key)
    ensures Latest(history, key).Some? ==>
              var m := Latest(history, key).value;
              KeyOf(key.org, m) == key && LatestOf(history, key, m.version) == Some(m)
    ensures forall version :: LatestOf(history, key, version).Some? ==> Latest(history, key).Some?
  {
    if history != [] {
      LatestIsLatestOf(history[..|history| - 1], key);
    }
  }

  lemma EmptyRepresents()
    ensures Represents(EMPTY_TABLES, [])
  {
  }

  lemma InsertSkillStep(t: Tables, key: Key, m: SkillManifest, newId: UUID)
    requires SkillsValid(t) && InsertSkill(t, key, m, newId).Some?
    ensures var (t1, id) := InsertSkill(t, key, m, newId).value;
      && SkillsValid(t1)
      && t1.skillIndex == t.skillIndex[key := id]
      && t1.skills == t.skills[id := SkillRow(key, m.description, m.version)]
      && t1.versions == t.versions && t1.versionIndex == t.versionIndex
      && (key in t.skillIndex ==> id == t.skillIndex[key])
      && (key !in t.skillIndex ==> id !in t.skills)
      && (forall k :: k in t.skillIndex && k != key ==> t.skillIndex[k] != id)
  {
  }

  lemma InsertVersionKeepsConstraints(t: Tables, skillId: UUID, m: SkillManifest, newId: UUID)
    requires VersionsValid(t) && skillId in t.skills && InsertVersion(t, skillId, m, newId).Some?
    ensures VersionsValid(InsertVersion(t, skillId, m, newId).value)
  {
  }

  lemma InsertVersionStep(t: Tables, skillId: UUID, m: SkillManifest, newId: UUID)
    requires VersionsValid(t) && skillId in t.skills && InsertVersion(t, skillId, m, newId).Some?
    ensures var t1 := InsertVersion(t, skillId, m, newId).value;
      var k := VersionKey(skillId, m.version);
      && t1.skills == t.skills && t1.skillIndex == t.skillIndex
      && k in t1.versionIndex
      && t1.versionIndex == t.versionIndex[k := t1.versionIndex[k]]
      && t1.versions == t.versions[t1.versionIndex[k] := VersionRow(skillId, m.version, m)]
      && (forall k' :: k' in t.versionIndex && k' != k ==> t.versionIndex[k'] != t1.versionIndex[k])
  {
  }

  /** The upsert's effect on the skills table, as `SkillMatches` sees it. */
  lemma SkillsFollow(t: Tables, t2: Tables, history: seq<Upserted>, u: Upserted, id: UUID, key: Key)
    requires var k := KeyOf(u.org, u.manifest);
      && t2.skillIndex == t.skillIndex[k := id]
      && t2.skills == t.skills[id := SkillRow(k, u.manifest.description, u.manifest.version)]
      && (key in t.skillIndex && key != k ==> t.skillIndex[key] != id)
    requires SkillMatches(t, history, key)
    ensures SkillMatches(t2, history + [u], key)
  {
    LatestSnoc(history, u, key, "");
  }

  /** The upsert's effect on the versions table, as `VersionMatches` sees it. */
  lemma VersionsFollow(t: Tables, t2: Tables, history: seq<Upserted>, u: Upserted, id: UUID, vid: UUID,
      key: Key, version: string)
    requires VersionsValid(t)
    requires var k := KeyOf(u.org, u.manifest);
      && t2.skillIndex == t.skillIndex[k := id]
      && (key in t.skillIndex && key != k ==> t.skillIndex[key] != id)
      && (k in t.skillIndex ==> t.skillIndex[k] == id)
      && (k !in t.skillIndex ==> id !in t.skills)
    requires var vk := VersionKey(id, u.manifest.version);
      && t2.versionIndex == t.versionIndex[vk := vid]
      && t2.versions == t.versions[vid := VersionRow(id, u.manifest.version, u.manifest)]
      && (forall k' :: k' in t.versionIndex && k' != vk ==> t.versionIndex[k'] != vid)
    requires VersionMatches(t, history, key, version) && SkillMatches(t, history, key)
    ensures VersionMatches(t2, history + [u], key, version)
  {
    LatestSnoc(history, u, key, version);
    LatestIsLatestOf(history, key);
    hide Latest, LatestOf;
  }

  /** A committed upsert extends the represented history by itself; a failed one changes nothing. */
  lemma UpsertRepresents(t: Tables, history: seq<Upserted>, org: UUID, m: SkillManifest, skillId: UUID,
      versionId: UUID, failure: Failure)
    requires Represents(t, history)
    requires PgUpsert(t, org, m, skillId, versionId, failure).Some?
    ensures Represents(PgUpsert(t, org, m, skillId, versionId, failure).value, history + [Upserted(org, m)])
  {
    hide SkillsValid, VersionsValid, SkillMatches, VersionMatches, InsertSkill, InsertVersion;
    var key, u := KeyOf(org, m), Upserted(org, m);
    InsertSkillStep(t, key, m, skillId);
    var (t1, id) := InsertSkill(t, key, m, skillId).value;
    MoreSkillsKeepVersions(t, t1);
    InsertVersionStep(t1, id, m, versionId);
    InsertVersionKeepsConstraints(t1, id, m, versionId);
    var t2 := InsertVersion(t1, id, m, versionId).value;
    SameSkills(t1, t2);
    var vid := t2.versionIndex[VersionKey(id, m.version)];
    forall k
      ensures SkillMatches(t2, history + [u], k)
    {
      SkillsFollow(t, t2, history, u, id, k);
    }
    forall k, version
      ensures VersionMatches(t2, history + [u], k, version)
    {
      VersionsFollow(t, t2, history, u, id, vid, k, version);
    }
  }

  lemma SkillIsKnown(t: Tables, history: seq<Upserted>, key: Key)
    requires Represents(t, history)
    ensures key in t.skillIndex <==> Latest(history, key).Some?
    ensures key in t.skillIndex ==> t.skillIndex[key] in t.skills
  {
    hide SkillsValid, VersionsValid, VersionMatches;
    assert SkillMatches(t, history, key);
  }

  lemma VersionIsKnown(t: Tables, history: seq<Upserted>, key: Key, version: string)
    requires Represents(t, history)
    ensures LatestOf(history, key, version).Some? <==>
            key in t.skillIndex && VersionKey(t.skillIndex[key], version) in t.versionIndex
    ensures forall id :: id !in t.skills ==> VersionKey(id, version) !in t.versionIndex
  {
    assert VersionMatches(t, history, key, version);
  }

  /** An upsert commits unless the database fails it, or an id that it needs is taken: that of the skills row if
      the key was never published, that of the version row if the key was never published with this version. A
      skill or version that is there already is updated. */
  lemma UpsertCommits(t: Tables, history: seq<Upserted>, org: UUID, m: SkillManifest, skillId: UUID, versionId: UUID,
      failure: Failure)
    requires Represents(t, history)
    ensures PgUpsert(t, org, m, skillId, versionId, failure) == None <==>
            || failure != NoFailure
            || (Latest(history, KeyOf(org, m)) == None && skillId in t.skills)
            || (LatestOf(history, KeyOf(org, m), m.version) == None && versionId in t.versions)
  {
    hide Represents, Latest, LatestOf;
    SkillIsKnown(t, history, KeyOf(org, m));
    VersionIsKnown(t, history, KeyOf(org, m), m.version);
    LatestIsLatestOf(history, KeyOf(org, m));
  }

  lemma MoreSkillsKeepVersions(t: Tables, t1: Tables)
    requires VersionsValid(t) && t1.versions == t.versions && t1.versionIndex == t.versionIndex
    requires t.skills.Keys <= t1.skills.Keys
    ensures VersionsValid(t1)
  {
  }

  lemma SameSkills(t: Tables, t1: Tables)
    requires SkillsValid(t) && t1.skills == t.skills && t1.skillIndex == t.skillIndex
    ensures SkillsValid(t1)
  {
  }

  /** A joined pair of rows yields the latest manifest of the skill's key. */
  lemma JoinFindsLatest(t: Tables, history: seq<Upserted>)
    requires Represents(t, history)
    ensures forall s, v :: t.Joins(s, v) ==> Latest(history, t.skills[s].key) == Some(t.versions[v].manifest)
  {
    forall s, v | t.Joins(s, v)
      ensures Latest(history, t.skills[s].key) == Some(t.versions[v].manifest)
    {
      var key := t.skills[s].key;
      assert SkillMatches(t, history, key);
      assert VersionMatches(t, history, key, t.skills[s].latestVersion);
      LatestIsLatestOf(history, key);
    }
  }

  lemma LatestIsJoined(t: Tables, history: seq<Upserted>, key: Key)
    requires Represents(t, history)
    ensures Latest(history, key).Some? ==> exists s, v :: t.Joins(s, v) && t.skills[s].key == key
  {
    if Latest(history, key).Some? {
      var m := Latest(history, key).value;
      LatestIsLatestOf(history, key);
      assert SkillMatches(t, history, key);
      assert VersionMatches(t, history, key, m.version);
      var s := t.skillIndex[key];
      assert t.Joins(s, t.versionIndex[VersionKey(s, m.version)]);
    }
  }

  /** Every skills row has exactly one version row for its latest version. */
  lemma OneRowPerLatestVersion(t: Tables, history: seq<Upserted>, s: UUID)
    requires Represents(t, history) && s in t.skills
    ensures exists v :: t.Joins(s, v)
    ensures forall v, w :: t.Joins(s, v) && t.Joins(s, w) ==> v == w
  {
    var key := t.skills[s].key;
    assert SkillMatches(t, history, key);
    LatestIsJoined(t, history, key);
  }

  /** And every key has at most one row of the join. */
  lemma SameKeySameRow(t: Tables, history: seq<Upserted>, org: UUID, r: (UUID, UUID), row: (UUID, UUID))
    requires Represents(t, history) && IsRow(t, org, r) && IsRow(t, org, row)
    ensures t.skills[r.0].key == t.skills[row.0].key ==> r == row
  {
    hide VersionsValid, SkillMatches, VersionMatches;
    OneRowPerLatestVersion(t, history, row.0);
  }

  /** Different rows of the join carry different manifests. */
  lemma RowsDiffer(t: Tables, history: seq<Upserted>, org: UUID, r: (UUID, UUID), row: (UUID, UUID))
    requires Represents(t, history) && IsRow(t, org, r) && IsRow(t, org, row)
    requires t.versions[r.1].manifest == t.versions[row.1].manifest
    ensures r == row
  {
    hide Represents;
    JoinFindsLatest(t, history);
    LatestIsLatestOf(history, t.skills[r.0].key);
    LatestIsLatestOf(history, t.skills[row.0].key);
    SameKeySameRow(t, history, org, r, row);
  }

  lemma RowsAreCurrent(t: Tables, history: seq<Upserted>, org: UUID, all: set<(UUID, UUID)>, out: seq<SkillManifest>)
    requires Represents(t, history) && NoDuplicates(out) && Listed(t, out, all)
    requires forall r :: r in all <==> IsRow(t, org, r)
    ensures ListsCurrent(out, history, org)
  {
    hide Represents, NoDuplicates;
    JoinFindsLatest(t, history);
    forall m
      ensures m in out <==> Latest(history, KeyOf(org, m)) == Some(m)
    {
      if m in out {
        var r :| r in all && HasManifest(t, r, m);
        assert IsRow(t, org, r);
        LatestIsLatestOf(history, t.skills[r.0].key);
      }
      if Latest(history, KeyOf(org, m)) == Some(m) {
        LatestIsJoined(t, history, KeyOf(org, m));
        var s, v :| t.Joins(s, v) && t.skills[s].key == KeyOf(org, m);
        assert IsRow(t, org, (s, v)) && HasManifest(t, (s, v), m);
      }
    }
  }
}
