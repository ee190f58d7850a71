/** API keys: issuing `<prefix>.<secret>` tokens and resolving them to their owner.

    Random bytes, fresh ids and salts are inputs. The hash function is a pair of functions whose
    laws are stated where they are used. */
module Auth {
  import opened Basics
  import opened Options
  import opened Strings
  import Base64

  datatype Principal = Principal(orgId: UUID, userId: UUID, apiKeyId: UUID)

  datatype KeyRow = KeyRow(orgId: UUID, userId: UUID, prefix: string, hash: string, name: string,
      lastUsedAt: Option<Time>)

  /** The api_keys table with its unique index on `prefix`. */
  datatype KeyTable = KeyTable(rows: map<UUID, KeyRow>, byPrefix: map<string, UUID>)

  datatype Bcrypt = Bcrypt(hash: (string, string) -> string, matches: (string, string) -> bool)

  /** A hash matches the secret it was made from. */
  ghost predicate Sound(bcrypt: Bcrypt) {
    forall secret, salt :: bcrypt.matches(bcrypt.hash(secret, salt), secret)
  }

  /** The first n characters of the secret and a NUL, over and over. */
  function Cycle(secret: string, n: nat): (key: string)
    ensures |key| == n
  {
    if n <= |secret| then secret[..n] else secret + "\0" + Cycle(secret, n - |secret| - 1)
  }

  /** What bcrypt derives its key from. */
  function KeyBytes(secret: string): string {
    Cycle(secret, 72)
  }

  /** And no secret that bcrypt derives another key from. */
  ghost predicate Exact(bcrypt: Bcrypt) {
    forall secret, salt, other ::
      bcrypt.matches(bcrypt.hash(secret, salt), other) <==> KeyBytes(other) == KeyBytes(secret)
  }

  lemma KeyAt(secret: string, i: nat)
    requires i < 72 && i <= |secret| && '\0' !in secret
    ensures |KeyBytes(secret)| == 72
    ensures i < |secret| ==> KeyBytes(secret)[i] == secret[i]
    ensures KeyBytes(secret)[i] == '\0' <==> i == |secret|
  {
  }

  /** Of the strings without a NUL a short one shares its key with no other. */
  lemma KeyIsOwn(secret: string, other: string)
    requires |secret| < 72 && '\0' !in secret && '\0' !in other
    ensures KeyBytes(other) == KeyBytes(secret) <==> other == secret
  {
    if KeyBytes(other) == KeyBytes(secret) {
      hide KeyBytes;
      var n := if |secret| < |other| then |secret| else |other|;
      KeyAt(secret, n);
      KeyAt(other, n);
      forall i | 0 <= i < |secret|
        ensures other[i] == secret[i]
      {
        KeyAt(secret, i);
        KeyAt(other, i);
      }
    }
  }

  /** A secret, a NUL, and the secret again make the same key. */
  lemma {:induction false} RepeatedKey(secret: string, n: nat)
    ensures Cycle(secret + "\0" + secret, n) == Cycle(secret, n)
  {
    var m, twice := |secret| + 1, secret + "\0" + secret;
    if 2 * m <= n {
      RepeatedKey(secret, n - 2 * m);
      assert twice + "\0" == secret + "\0" + (secret + "\0");
    } else if m <= n {
      assert twice + "\0" == secret + "\0" + (secret + "\0");
    }
  }

  datatype IssuedKey = IssuedKey(id: UUID, prefix: string, plaintext: string)

  /** Everything `IssueAPIKey` draws or is given. `fails` stands for an entropy, hashing or database error. */
  datatype Order = Order(
    orgId: UUID,
    userId: UUID,
    name: string,
    prefixBytes: seq<Byte>,
    secretBytes: seq<Byte>,
    salt: string,
    id: UUID,
    fails: bool
  ) {
    /** Tokens are drawn from 6 and 24 random bytes. */
    predicate Drawn() {
      |prefixBytes| == 6 && |secretBytes| == 24
    }

    function Prefix(): string {
      "sc_live_" + Base64.Encode(prefixBytes)
    }

    function Secret(): string {
      Base64.Encode(secretBytes)
    }

    function Plaintext(): string {
      Prefix() + "." + Secret()
    }

    function Owner(): Principal {
      Principal(orgId, userId, id)
    }
  }

  /** The insert fails on a taken prefix or id, and then changes nothing. */
  function Insert(t: KeyTable, bcrypt: Bcrypt, o: Order): Option<KeyTable> {
    if o.fails || o.Prefix() in t.byPrefix || o.id in t.rows then None
    else
      var row := KeyRow(o.orgId, o.userId, o.Prefix(), bcrypt.hash(o.Secret(), o.salt), o.name, None);
      Some(KeyTable(t.rows[o.id := row], t.byPrefix[o.Prefix() := o.id]))
  }

  /** The principal a token resolves to, if it does. */
  function Resolve(t: KeyTable, bcrypt: Bcrypt, token: string): Option<Principal> {
    var cut := IndexOf(token, '.');
    if cut == -1 then None
    else
      var prefix, secret := token[..cut], token[cut + 1..];
      if prefix == "" || secret == "" || prefix !in t.byPrefix || t.byPrefix[prefix] !in t.rows then None
      else
        var id := t.byPrefix[prefix];
        var row := t.rows[id];
        if bcrypt.matches(row.hash, secret) then Some(Principal(row.orgId, row.userId, id)) else None
  }

  function Touch(t: KeyTable, id: UUID, clock: Time): KeyTable {
    if id in t.rows then t.(rows := t.rows[id := t.rows[id].(lastUsedAt := Some(clock))]) else t
  }

  /** The table after `Authenticate`. Recording the use is best effort: `recorded` says whether it worked. */
  function AfterAuthenticate(t: KeyTable, bcrypt: Bcrypt, token: string, clock: Time, recorded: bool): KeyTable {
    match Resolve(t, bcrypt, token)
    case None => t
    case Some(p) => if recorded then Touch(t, p.apiKeyId, clock) else t
  }

  datatype Authentication = Authenticated(principal: Principal) | InvalidKey | Unavailable

  /** A prefix and a secret around the token's first dot. */
  predicate WellFormed(token: string) {
    var cut := IndexOf(token, '.');
    0 < cut < |token| - 1
  }

  class Service {
    const bcrypt: Bcrypt
    var table: KeyTable

    constructor (bcrypt: Bcrypt)
      ensures this.bcrypt == bcrypt && table == KeyTable(map[], map[])
    {
      this.bcrypt := bcrypt;
      table := KeyTable(map[], map[]);
    }

    method IssueAPIKey(o: Order) returns (issued: Option<IssuedKey>)
      modifies this
      ensures var after := Insert(old(table), bcrypt, o);
        && table == (if after.Some? then after.value else old(table))
        && issued == (if after.Some? then Some(IssuedKey(o.id, o.Prefix(), o.Plaintext())) else None)
      ensures var prefix, secret := "sc_live_" + Base64.Encode(o.prefixBytes), Base64.Encode(o.secretBytes);
        && (issued == None <==> o.fails || prefix in old(table).byPrefix || o.id in old(table).rows)
        && (issued == None ==> table == old(table))
        && (issued != None ==>
              && issued == Some(IssuedKey(o.id, prefix, prefix + "." + secret))
              && table.byPrefix == old(table).byPrefix[prefix := o.id]
              && table.rows ==
                 old(table).rows[o.id :=
                   KeyRow(o.orgId, o.userId, prefix, bcrypt.hash(secret, o.salt), o.name, None)])
    {
      var prefix := "sc_live_" + Base64.Encode(o.prefixBytes);
      var secret := Base64.Encode(o.secretBytes);
      var hash := bcrypt.hash(secret, o.salt);
      if o.fails || prefix in table.byPrefix || o.id in table.rows {
        return None;
      }
      var row := KeyRow(o.orgId, o.userId, prefix, hash, o.name, None);
      table := KeyTable(table.rows[o.id := row], table.byPrefix[prefix := o.id]);
      return Some(IssuedKey(o.id, prefix, prefix + "." + secret));
    }

    /** A token that is none is invalid even when the database cannot be reached. */
    method Authenticate(token: string, clock: Time, reachable: bool, recorded: bool) returns (r: Authentication)
      modifies this
      ensures r == Unavailable <==> WellFormed(token) && !reachable
      ensures forall p :: r == Authenticated(p) <==> reachable && Resolve(old(table), bcrypt, token) == Some(p)
      ensures table == AfterAuthenticate(old(table), bcrypt, token, clock, reachable && recorded)
      ensures table.byPrefix == old(table).byPrefix && table.rows.Keys == old(table).rows.Keys
      ensures forall id :: id in table.rows ==>
                var row := old(table).rows[id];
                table.rows[id] ==
                if recorded && r.Authenticated? && r.principal.apiKeyId == id then row.(lastUsedAt := Some(clock))
                else row
    {
      var cut := IndexOf(token, '.');
      if cut == -1 {
        return InvalidKey;
      }
      var prefix, secret := token[..cut], token[cut + 1..];
      if prefix == "" || secret == "" {
        return InvalidKey;
      }
      if !reachable {
        return Unavailable;
      }
      if prefix !in table.byPrefix || table.byPrefix[prefix] !in table.rows {
        return InvalidKey;
      }
      var id := table.byPrefix[prefix];
      var row := table.rows[id];
      if !bcrypt.matches(row.hash, secret) {
        return InvalidKey;
      }
      r := Authenticated(Principal(row.orgId, row.userId, id));
      if recorded {
        table := Touch(table, id, clock);
      }
    }
  }

  // ---------- runs ----------

  datatype Event = Issue(order: Order) | Use(token: string, clock: Time, recorded: bool)

  function Step(t: KeyTable, bcrypt: Bcrypt, e: Event): KeyTable {
    match e
    case Issue(o) => (match Insert(t, bcrypt, o) case None => t case Some(t') => t')
    case Use(token, clock, recorded) => AfterAuthenticate(t, bcrypt, token, clock, recorded)
  }

  function TableAfter(es: seq<Event>, bcrypt: Bcrypt): KeyTable {
    if es == [] then KeyTable(map[], map[]) else Step(TableAfter(es[..|es| - 1], bcrypt), bcrypt, es[|es| - 1])
  }

  /** The orders that went through, by the id of the key they created. */
  function Granted(es: seq<Event>, bcrypt: Bcrypt): map<UUID, Order> {
    if es == [] then map[]
    else
      var front, e := es[..|es| - 1], es[|es| - 1];
      if e.Issue? && Insert(TableAfter(front, bcrypt), bcrypt, e.order).Some?
      then Granted(front, bcrypt)[e.order.id := e.order]
      else Granted(front, bcrypt)
  }

  ghost predicate AllDrawn(es: seq<Event>) {
    forall i :: 0 <= i < |es| && es[i].Issue? ==> es[i].order.Drawn()
  }

  /** Row by row the table is what the granted orders say, and the index mirrors it. */
  ghost predicate Backed(t: KeyTable, granted: map<UUID, Order>, bcrypt: Bcrypt) {
    && t.rows.Keys == granted.Keys
    && (forall id :: id in granted ==>
          var o, row := granted[id], t.rows[id];
          && o.Drawn() && o.id == id
          && row.orgId == o.orgId && row.userId == o.userId && row.prefix == o.Prefix()
          && row.hash == bcrypt.hash(o.Secret(), o.salt)
          && row.prefix in t.byPrefix && t.byPrefix[row.prefix] == id)
    && (forall prefix :: prefix in t.byPrefix ==>
          t.byPrefix[prefix] in t.rows && t.rows[t.byPrefix[prefix]].prefix == prefix)
  }

  lemma InsertIsBacked(t: KeyTable, granted: map<UUID, Order>, bcrypt: Bcrypt, o: Order)
    requires Backed(t, granted, bcrypt) && o.Drawn() && Insert(t, bcrypt, o).Some?
    ensures Backed(Insert(t, bcrypt, o).value, granted[o.id := o], bcrypt)
  {
    hide Base64.Encode;
  }

  lemma TouchIsBacked(t: KeyTable, granted: map<UUID, Order>, bcrypt: Bcrypt, id: UUID, clock: Time)
    requires Backed(t, granted, bcrypt)
    ensures Backed(Touch(t, id, clock), granted, bcrypt)
  {
    hide Base64.Encode;
  }

  lemma {:induction false} RunIsBacked(es: seq<Event>, bcrypt: Bcrypt)
    requires AllDrawn(es)
    ensures Backed(TableAfter(es, bcrypt), Granted(es, bcrypt), bcrypt)
  {
    if es != [] {
      hide Backed, Insert, Resolve, Touch;
      var front, e := es[..|es| - 1], es[|es| - 1];
      RunIsBacked(front, bcrypt);
      var t, granted := TableAfter(front, bcrypt), Granted(front, bcrypt);
      match e
      case Issue(o) =>
        if Insert(t, bcrypt, o).Some? {
          InsertIsBacked(t, granted, bcrypt, o);
        }
      case Use(token, clock, recorded) =>
        var p := Resolve(t, bcrypt, token);
        if p.Some? {
          TouchIsBacked(t, granted, bcrypt, p.value.apiKeyId, clock);
        }
    }
  }

  /** When the key was last used, and the use recorded, in a run. */
  function LastUse(es: seq<Event>, bcrypt: Bcrypt, id: UUID): Option<Time> {
    if es == [] then None
    else
      var front, e := es[..|es| - 1], es[|es| - 1];
      if e.Use? && e.recorded && AcceptedFor(TableAfter(front, bcrypt), bcrypt, e.token, id) then Some(e.clock)
      else LastUse(front, bcrypt, id)
  }

  predicate AcceptedFor(t: KeyTable, bcrypt: Bcrypt, token: string, id: UUID) {
    var p := Resolve(t, bcrypt, token);
    p.Some? && p.value.apiKeyId == id
  }

  /** Every row tells when its own key was last used, and keeps the name it was given. */
  lemma {:induction false} UseIsRecorded(es: seq<Event>, bcrypt: Bcrypt, id: UUID)
    ensures var rows := TableAfter(es, bcrypt).rows;
      if id in rows then
        && rows[id].lastUsedAt == LastUse(es, bcrypt, id)
        && id in Granted(es, bcrypt) && rows[id].name == Granted(es, bcrypt)[id].name
      else LastUse(es, bcrypt, id) == None
  {
    hide Base64.Encode, Resolve, Order.Prefix, Order.Secret;
    if es != [] {
      var front, e := es[..|es| - 1], es[|es| - 1];
      UseIsRecorded(front, bcrypt, id);
      if e.Use? {
        ResolvedIsThere(TableAfter(front, bcrypt), bcrypt, e.token);
      }
    }
  }

  lemma ResolvedIsThere(t: KeyTable, bcrypt: Bcrypt, token: string)
    ensures Resolve(t, bcrypt, token).Some? ==> Resolve(t, bcrypt, token).value.apiKeyId in t.rows
  {
  }

  /** An order's prefix has no dot, so that a token's first dot is the one between prefix and secret. */
  lemma PlaintextCuts(o: Order)
    requires o.Drawn()
    ensures IndexOf(o.Plaintext(), '.') == |o.Prefix()|
    ensures o.Plaintext()[..|o.Prefix()|] == o.Prefix() && o.Plaintext()[|o.Prefix()| + 1..] == o.Secret()
    ensures o.Prefix() != "" && o.Secret() != ""
  {
    Base64.TokenHasNoDot(o.prefixBytes);
    Base64.TokenHasNoDot(o.secretBytes);
    FirstCut(o.Prefix(), o.Secret(), '.');
  }

  /** In every state a run reaches, every key issued so far authenticates as exactly its own org, user and
      key id. */
  lemma IssuedKeysAuthenticate(es: seq<Event>, bcrypt: Bcrypt, id: UUID)
    requires AllDrawn(es) && Sound(bcrypt) && id in Granted(es, bcrypt)
    ensures Resolve(TableAfter(es, bcrypt), bcrypt, Granted(es, bcrypt)[id].Plaintext()) ==
            var o := Granted(es, bcrypt)[id]; Some(Principal(o.orgId, o.userId, id))
  {
    hide TableAfter, Granted, Base64.Encode, Order.Prefix, Order.Secret, Order.Plaintext;
    RunIsBacked(es, bcrypt);
    PlaintextCuts(Granted(es, bcrypt)[id]);
  }

  /** The token is the order's prefix, a dot, and a secret that bcrypt cannot tell from the order's. */
  predicate Passes(token: string, o: Order) {
    var cut := IndexOf(token, '.');
    cut != -1 && token[..cut] == o.Prefix() && KeyBytes(token[cut + 1..]) == KeyBytes(o.Secret())
  }

  /** If the hash is as good as its key, a run's state accepts a token exactly for the owner of an issued key
      that it passes for. */
  lemma AcceptedTokens(es: seq<Event>, bcrypt: Bcrypt, token: string, p: Principal)
    requires AllDrawn(es) && Exact(bcrypt)
    ensures Resolve(TableAfter(es, bcrypt), bcrypt, token) == Some(p) <==>
            var granted := Granted(es, bcrypt);
            p.apiKeyId in granted && granted[p.apiKeyId].Owner() == p && Passes(token, granted[p.apiKeyId])
  {
    hide TableAfter, Granted, Base64.Encode, Order.Prefix, Order.Secret, KeyBytes;
    var t, granted := TableAfter(es, bcrypt), Granted(es, bcrypt);
    RunIsBacked(es, bcrypt);
    var cut := IndexOf(token, '.');
    if p.apiKeyId in granted {
      var o := granted[p.apiKeyId];
      PlaintextCuts(o);
      SecretIsShort(o);
      EmptyKey(o.Secret());
      if cut != -1 {
        assert bcrypt.matches(t.rows[o.id].hash, token[cut + 1..]) <==>
               KeyBytes(token[cut + 1..]) == KeyBytes(o.Secret());
      }
    }
  }

  lemma SecretIsShort(o: Order)
    requires o.Drawn()
    ensures |o.Secret()| == 32 && '\0' !in o.Secret() && '\0' !in o.Prefix()
  {
    Base64.TokenHasNoDot(o.secretBytes);
    Base64.TokenHasNoDot(o.prefixBytes);
  }

  lemma EmptyKey(secret: string)
    requires secret != "" && '\0' !in secret
    ensures KeyBytes("") != KeyBytes(secret)
  {
    assert KeyBytes("")[0] == '\0' && KeyBytes(secret)[0] == secret[0];
  }

  /** Of the tokens without a NUL, which is all that a header field can carry (section 5.5 of RFC 9110), those
      are exactly the plaintexts issued so far. */
  lemma OnlyIssuedKeysAuthenticate(es: seq<Event>, bcrypt: Bcrypt, token: string, p: Principal)
    requires AllDrawn(es) && Exact(bcrypt) && '\0' !in token
    ensures Resolve(TableAfter(es, bcrypt), bcrypt, token) == Some(p) <==>
            var granted := Granted(es, bcrypt);
            p.apiKeyId in granted && granted[p.apiKeyId].Owner() == p && granted[p.apiKeyId].Plaintext() == token
  {
    hide TableAfter, Granted, Base64.Encode, Order.Prefix, Order.Secret, KeyBytes, Resolve, Backed;
    AcceptedTokens(es, bcrypt, token, p);
    RunIsBacked(es, bcrypt);
    var granted := Granted(es, bcrypt);
    if p.apiKeyId in granted {
      GrantedIsDrawn(TableAfter(es, bcrypt), granted, bcrypt, p.apiKeyId);
      PassesForOne(token, granted[p.apiKeyId]);
    }
  }

  lemma GrantedIsDrawn(t: KeyTable, granted: map<UUID, Order>, bcrypt: Bcrypt, id: UUID)
    requires Backed(t, granted, bcrypt) && id in granted
    ensures granted[id].Drawn()
  {
  }

  lemma PassesForOne(token: string, o: Order)
    requires o.Drawn() && '\0' !in token
    ensures Passes(token, o) <==> token == o.Plaintext()
  {
    hide Base64.Encode, Order.Prefix, Order.Secret, KeyBytes;
    PlaintextCuts(o);
    SecretIsShort(o);
    var cut := IndexOf(token, '.');
    if cut != -1 {
      KeyIsOwn(o.Secret(), token[cut + 1..]);
      assert token == token[..cut] + "." + token[cut + 1..];
    }
  }

  /** With a NUL there are others: the secret may be repeated after one. */
  lemma RepeatedSecretAuthenticates(es: seq<Event>, bcrypt: Bcrypt, id: UUID)
    requires AllDrawn(es) && Exact(bcrypt) && id in Granted(es, bcrypt)
    ensures var o := Granted(es, bcrypt)[id];
      Resolve(TableAfter(es, bcrypt), bcrypt, o.Plaintext() + "\0" + o.Secret()) == Some(o.Owner())
  {
    hide TableAfter, Granted, Base64.Encode, Order.Prefix, Order.Secret, Cycle, Resolve;
    var o := Granted(es, bcrypt)[id];
    RunIsBacked(es, bcrypt);
    PlaintextCuts(o);
    var secret := o.Secret() + "\0" + o.Secret();
    assert o.Plaintext() + "\0" + o.Secret() == o.Prefix() + "." + secret;
    Base64.TokenHasNoDot(o.prefixBytes);
    FirstCut(o.Prefix(), secret, '.');
    RepeatedKey(o.Secret(), 72);
    assert KeyBytes(secret) == KeyBytes(o.Secret());
    AcceptedTokens(es, bcrypt, o.Plaintext() + "\0" + o.Secret(), o.Owner());
  }

  /** Issuing fails, beyond an error of its environment, exactly when the id is taken or the same prefix bytes
      were drawn for an earlier key. */
  lemma CollisionMeansSameBytes(es: seq<Event>, bcrypt: Bcrypt, o: Order)
    requires AllDrawn(es) && o.Drawn()
    ensures Insert(TableAfter(es, bcrypt), bcrypt, o).None? <==>
            || o.fails || o.id in Granted(es, bcrypt)
            || exists id :: id in Granted(es, bcrypt) && Granted(es, bcrypt)[id].prefixBytes == o.prefixBytes
  {
    hide TableAfter, Granted, Base64.Encode;
    var t, granted := TableAfter(es, bcrypt), Granted(es, bcrypt);
    RunIsBacked(es, bcrypt);
    if o.Prefix() in t.byPrefix {
      var id := t.byPrefix[o.Prefix()];
      PrefixIsInjective(granted[id], o);
    }
  }

  lemma PrefixIsInjective(o: Order, o': Order)
    requires o.Prefix() == o'.Prefix()
    ensures o.prefixBytes == o'.prefixBytes
  {
    assert o.Prefix()[8..] == Base64.Encode(o.prefixBytes) && o'.Prefix()[8..] == Base64.Encode(o'.prefixBytes);
    Base64.EncodeIsInjective(o.prefixBytes, o'.prefixBytes);
  }
}
