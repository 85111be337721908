/** SSH credential generations: what makes two credential records equal, and which connections
    survive a rotation (internal/netconfssh/auth.go, internal/netconfssh/server.go). */
module Credentials {
  import opened Text

  /** One line of an authorized-keys file: key material and options. */
  datatype AuthKey = AuthKey(blob: string, options: seq<string>)

  datatype LoadedUser = LoadedUser(password: string, keys: seq<AuthKey>, gen: nat)

  type Users = map<string, LoadedUser>

  /** What a client shows when it logs in. */
  datatype Secret = Password(text: string) | Key(blob: string)

  // --------------------------------------------------------------- credential ids

  /** A length-prefixed field. */
  function Field(s: string): string { Decimal(|s|) + ":" + s }

  function OptionsText(opts: seq<string>): string {
    if opts == [] then "" else "\0" + Field(opts[0]) + OptionsText(opts[1..])
  }

  /** credentialID. */
  function CredentialId(k: AuthKey): string { Field(k.blob) + OptionsText(k.options) }

  lemma {:induction false} DigitsBeforeColon(s: string, t: string)
    ensures var text, n := Field(s) + t, |Decimal(|s|)|;
      text[n] == ':' && forall i | 0 <= i < n :: IsDigit(text[i])
  {
    assert forall i | 0 <= i < |Decimal(|s|)| :: (Field(s) + t)[i] == Decimal(|s|)[i];
  }

  /** A field tells where it ends. */
  lemma {:induction false} FieldIsPrefixFree(a: string, b: string, x: string, y: string)
    requires Field(a) + x == Field(b) + y
    ensures a == b && x == y
  {
    var m, n := |Decimal(|a|)|, |Decimal(|b|)|;
    var s, t := Field(a) + x, Field(b) + y;
    DigitsBeforeColon(a, x);
    DigitsBeforeColon(b, y);
    assert m == n;
    assert s[..m] == Decimal(|a|) && t[..n] == Decimal(|b|);
    assert |a| == |b|;
    assert s[m + 1..m + 1 + |a|] == a && t[n + 1..n + 1 + |b|] == b;
    assert s[m + 1 + |a|..] == x && t[n + 1 + |b|..] == y;
  }

  lemma {:induction false} OptionsTextIsInjective(a: seq<string>, b: seq<string>)
    requires OptionsText(a) == OptionsText(b)
    ensures a == b
  {
    hide Field;
    if a != [] && b != [] {
      assert OptionsText(a)[1..] == Field(a[0]) + OptionsText(a[1..]);
      assert OptionsText(b)[1..] == Field(b[0]) + OptionsText(b[1..]);
      FieldIsPrefixFree(a[0], b[0], OptionsText(a[1..]), OptionsText(b[1..]));
      OptionsTextIsInjective(a[1..], b[1..]);
      assert a == [a[0]] + a[1..] && b == [b[0]] + b[1..];
    }
  }

  /** Different key lines have different ids. */
  lemma {:induction false} CredentialIdIsInjective(k: AuthKey, l: AuthKey)
    requires CredentialId(k) == CredentialId(l)
    ensures k == l
  {
    FieldIsPrefixFree(k.blob, l.blob, OptionsText(k.options), OptionsText(l.options));
    OptionsTextIsInjective(k.options, l.options);
  }

  method BuildCredentialId(k: AuthKey) returns (b: string)
    ensures b == CredentialId(k)
  {
    b := Decimal(|k.blob|) + ":" + k.blob;
    var i := 0;
    while i < |k.options|
      invariant 0 <= i <= |k.options|
      invariant CredentialId(k) == b + OptionsText(k.options[i..])
    {
      ghost var rest := OptionsText(k.options[i + 1..]);
      assert k.options[i..][1..] == k.options[i + 1..];
      assert b + ("\0" + Field(k.options[i]) + rest) == b + "\0" + (Decimal(|k.options[i]|) + ":" + k.options[i]) + rest;
      b := b + "\0" + (Decimal(|k.options[i]|) + ":" + k.options[i]);
      i := i + 1;
    }
  }

  // ------------------------------------------------------------ equal credentials

  function Ids(keys: seq<AuthKey>): (ids: seq<string>)
    ensures |ids| == |keys| && forall i | 0 <= i < |ids| :: ids[i] == CredentialId(keys[i])
  {
    seq(|keys|, i requires 0 <= i < |keys| => CredentialId(keys[i]))
  }

  lemma {:induction false} IdCount(keys: seq<AuthKey>, k: AuthKey)
    ensures multiset(Ids(keys))[CredentialId(k)] == multiset(keys)[k]
  {
    hide CredentialId;
    if keys == [] {
      assert Ids(keys) == [];
    } else {
      var n := |keys| - 1;
      IdCount(keys[..n], k);
      assert keys == keys[..n] + [keys[n]];
      assert Ids(keys) == Ids(keys[..n]) + [CredentialId(keys[n])];
      if CredentialId(keys[n]) == CredentialId(k) { CredentialIdIsInjective(keys[n], k); }
    }
  }

  /** Equal multisets of ids are equal multisets of keys. */
  lemma {:induction false} SameIdsSameKeys(a: seq<AuthKey>, b: seq<AuthKey>)
    ensures multiset(Ids(a)) == multiset(Ids(b)) <==> multiset(a) == multiset(b)
  {
    hide Ids, CredentialId;
    forall k ensures multiset(Ids(a))[CredentialId(k)] == multiset(a)[k] && multiset(Ids(b))[CredentialId(k)] == multiset(b)[k] {
      IdCount(a, k);
      IdCount(b, k);
    }
    if multiset(a) == multiset(b) {
      forall id ensures multiset(Ids(a))[id] == multiset(Ids(b))[id] {
        if id in Ids(a) {
          var k := KeyOfId(a, id);
        } else if id in Ids(b) {
          var k := KeyOfId(b, id);
        }
      }
    }
    if multiset(Ids(a)) == multiset(Ids(b)) {
      forall k ensures multiset(a)[k] == multiset(b)[k] {
        assert multiset(Ids(a))[CredentialId(k)] == multiset(a)[k];
      }
    }
  }

  lemma {:induction false} KeyOfId(keys: seq<AuthKey>, id: string) returns (k: AuthKey)
    requires id in Ids(keys)
    ensures CredentialId(k) == id
  {
    var i :| 0 <= i < |Ids(keys)| && Ids(keys)[i] == id;
    k := keys[i];
  }

  /** What credentialsEqual decides: the password bytes and the key multiset. */
  predicate SameCredentials(a: LoadedUser, b: LoadedUser) {
    a.password == b.password && multiset(a.keys) == multiset(b.keys)
  }

  lemma {:induction false} SubMultisetOfSameSize(x: multiset<string>, y: multiset<string>)
    requires x <= y && |x| == |y|
    ensures x == y
  {
    assert |y - x| == 0;
    assert y == x + (y - x);
  }

  /** credentialsEqual, by counting ids. */
  method CredentialsEqual(a: LoadedUser, b: LoadedUser) returns (r: bool)
    ensures r <==> SameCredentials(a, b)
  {
    hide Ids, CredentialId;
    if a.password != b.password { return false; }
    SameIdsSameKeys(a.keys, b.keys);
    if |a.keys| != |b.keys| {
      assert |multiset(a.keys)| == |a.keys| && |multiset(b.keys)| == |b.keys|;
      return false;
    }
    r := SameIdCounts(a.keys, b.keys);
  }

  function CountOf(counts: map<string, int>, id: string): int { if id in counts then counts[id] else 0 }

  method CountIds(keys: seq<AuthKey>) returns (counts: map<string, int>)
    ensures forall id :: CountOf(counts, id) == multiset(Ids(keys))[id]
  {
    hide Ids, CredentialId;
    ghost var ids := Ids(keys);
    counts := map[];
    var i := 0;
    while i < |keys|
      invariant 0 <= i <= |keys|
      invariant forall id :: CountOf(counts, id) == multiset(ids[..i])[id]
    {
      var id := BuildCredentialId(keys[i]);
      assert ids[..i + 1] == ids[..i] + [id];
      assert multiset(ids[..i + 1]) == multiset(ids[..i]) + multiset{id};
      counts := counts[id := CountOf(counts, id) + 1];
      i := i + 1;
    }
    assert ids[..|keys|] == ids;
  }

  method SameIdCounts(a: seq<AuthKey>, b: seq<AuthKey>) returns (r: bool)
    requires |a| == |b|
    ensures r <==> multiset(Ids(a)) == multiset(Ids(b))
  {
    hide Ids, CredentialId;
    ghost var all, ids := multiset(Ids(a)), Ids(b);
    ghost var seen: multiset<string> := multiset{};
    var counts := CountIds(a);
    var i := 0;
    while i < |b|
      invariant 0 <= i <= |b| && seen == multiset(ids[..i])
      invariant forall id :: CountOf(counts, id) + seen[id] == all[id] && CountOf(counts, id) >= 0
    {
      var id := BuildCredentialId(b[i]);
      SeenOneMore(ids, i);
      var n := CountOf(counts, id);
      if n == 0 {
        assert multiset(ids)[id] > all[id];
        return false;
      }
      counts := counts[id := n - 1];
      seen := seen + multiset{id};
      i := i + 1;
    }
    assert ids[..|b|] == ids;
    assert multiset(ids) <= all;
    SubMultisetOfSameSize(multiset(ids), all);
    return true;
  }

  lemma {:induction false} SeenOneMore(ids: seq<string>, i: nat)
    requires i < |ids|
    ensures multiset(ids[..i + 1]) == multiset(ids[..i]) + multiset{ids[i]} <= multiset(ids)
  {
    assert ids[..i + 1] == ids[..i] + [ids[i]];
    assert ids == ids[..i + 1] + ids[i + 1..];
  }

  // -------------------------------------------------------------------- rotation

  /** What a connection proved when it authenticated. */
  datatype Proof = Proof(password: string, keys: multiset<AuthKey>)

  function ProofOf(u: LoadedUser): Proof { Proof(u.password, multiset(u.keys)) }

  /** passwordAuth and publicKeyAuth: the password, unless none is set, or any listed key. */
  predicate Accepts(u: LoadedUser, secret: Secret) {
    match secret
    case Password(text) => text != "" && text == u.password
    case Key(blob) => exists i | 0 <= i < |u.keys| :: u.keys[i].blob == blob
  }

  predicate Opens(p: Proof, secret: Secret) {
    match secret
    case Password(text) => text != "" && text == p.password
    case Key(blob) => exists k | k in p.keys :: k.blob == blob
  }

  /** Whether a secret is accepted depends on the credentials alone. */
  lemma {:induction false} AcceptsIffOpens(u: LoadedUser, secret: Secret)
    ensures Accepts(u, secret) <==> Opens(ProofOf(u), secret)
  {
    if secret.Key? && Opens(ProofOf(u), secret) {
      var k :| k in ProofOf(u).keys && k.blob == secret.blob;
      assert k in u.keys;
    }
    if secret.Key? && Accepts(u, secret) {
      var i :| 0 <= i < |u.keys| && u.keys[i].blob == secret.blob;
      assert u.keys[i] in ProofOf(u).keys;
    }
  }

  /** A tracked connection; user is empty until it is bound. */
  datatype Tracked = Tracked(user: string, gen: nat)

  /** How publishUsers numbers a newly loaded map: an unchanged user keeps its generation, anyone else
      gets one nobody has had. */
  predicate Numbered(old_: Users, next: Users, lastGen: nat, newLast: nat) {
    && lastGen <= newLast
    && (forall n | n in next ::
          if n in old_ && old_[n].gen != 0 && SameCredentials(old_[n], next[n]) then next[n].gen == old_[n].gen
          else lastGen < next[n].gen <= newLast)
    && (forall m, n | m in next && n in next && m != n && next[m].gen > lastGen :: next[m].gen != next[n].gen)
  }

  predicate Current(users: Users, c: Tracked) { c.user in users && users[c.user].gen == c.gen }

  class Server {
    var users: Users
    var nextGen: nat
    var conns: map<nat, Tracked>

    constructor ()
      ensures users == map[] && nextGen == 0 && conns == map[]
    {
      users, nextGen, conns := map[], 0, map[];
    }

    /** publishUsers, under the mutex. The connections it returns are closed afterwards. */
    method PublishUsers(loaded: Users) returns (drop: set<nat>)
      requires forall n | n in users :: users[n].gen <= nextGen
      modifies this`users, this`nextGen
      ensures users.Keys == loaded.Keys && (forall n | n in loaded :: users[n] == loaded[n].(gen := users[n].gen))
      ensures Numbered(old(users), users, old(nextGen), nextGen)
      ensures drop == set c | c in conns && conns[c].user != "" && !Current(users, conns[c])
    {
      var next: Users := map[];
      var todo := loaded.Keys;
      while todo != {}
        invariant todo <= loaded.Keys && next.Keys == loaded.Keys - todo && users == old(users)
        invariant forall n | n in next :: next[n] == loaded[n].(gen := next[n].gen)
        invariant Numbered(users, next, old(nextGen), nextGen)
      {
        var n :| n in todo;
        var kept := false;
        if n in users && users[n].gen != 0 { kept := CredentialsEqual(users[n], loaded[n]); }
        if kept {
          next := next[n := loaded[n].(gen := users[n].gen)];
        } else {
          nextGen := nextGen + 1;
          next := next[n := loaded[n].(gen := nextGen)];
        }
        todo := todo - {n};
      }
      users := next;
      drop := set c | c in conns && conns[c].user != "" && !Current(users, conns[c]);
    }

    /** passwordAuth: the permissions of a login carry the user's generation. */
    method PasswordAuth(user: string, password: string) returns (granted: Option<string>)
      ensures granted.Some? <==> user in users && Accepts(users[user], Password(password))
      ensures granted.Some? ==> password != "" && users[user].password == password
      ensures granted.Some? ==> granted.value == Permissions(users[user])
    {
      if user !in users || |users[user].password| == 0 { return None; }
      if users[user].password != password { return None; }
      return Some(Permissions(users[user]));
    }

    /** publicKeyAuth. */
    method PublicKeyAuth(user: string, blob: string) returns (granted: Option<string>)
      ensures granted.Some? <==> user in users && Accepts(users[user], Key(blob))
      ensures granted.Some? ==> granted.value == Permissions(users[user])
    {
      if user !in users { return None; }
      var u, i := users[user], 0;
      while i < |u.keys|
        invariant 0 <= i <= |u.keys| && forall j | 0 <= j < i :: u.keys[j].blob != blob
      {
        if u.keys[i].blob == blob { return Some(Permissions(u)); }
        i := i + 1;
      }
      return None;
    }

    /** bindAuth. */
    method BindAuth(c: nat, user: string, genText: string) returns (close: bool)
      modifies this`conns
      ensures (conns, close) == Bound(users, old(conns), c, user, genText)
    {
      var gen := ParseUint(genText);
      if gen.None? || gen.value == 0 || user == "" { return true; }
      if c !in conns { return true; }
      conns := conns[c := Tracked(user, gen.value)];
      close := !(user in users && users[user].gen == gen.value);
    }
  }

  /** The generation a login is told; none while the user has none. */
  function Permissions(u: LoadedUser): string { if u.gen == 0 then "" else Decimal(u.gen) }

  /** What binding records, and whether the connection must go. */
  function Bound(users: Users, conns: map<nat, Tracked>, c: nat, user: string, genText: string): (map<nat, Tracked>, bool) {
    var gen := ParseUint(genText);
    if gen.None? || gen == Some(0) || user == "" || c !in conns then (conns, true)
    else (conns[c := Tracked(user, gen.value)], !Current(users, Tracked(user, gen.value)))
  }

  const MAX_UINT64: nat := 0xffff_ffff_ffff_ffff

  /** strconv.ParseUint in base ten with 64 bits. */
  function ParseUint(s: string): Option<nat> {
    if s == "" || !AllDigits(s) || NumeralValue(s) > MAX_UINT64 then None else Some(NumeralValue(s))
  }

  /** The generation that permissions writes is the one bindAuth reads. */
  lemma {:induction false} GenerationReadsBack(gen: nat)
    requires gen <= MAX_UINT64
    ensures ParseUint(Decimal(gen)) == Some(gen)
  {
  }

  // ------------------------------------------------------------------- interleavings

  /** One generation of one user. */
  datatype Stamp = Stamp(user: string, gen: nat)

  /** A connection that has authenticated: the user, the generation it was told, what it showed, and
      the credentials that took it. */
  datatype Login = Login(user: string, gen: nat, secret: Secret, proof: Proof)

  /** The published map; the map publishUsers read before it lets go of the mutex; the connection table
      (None until bound); logins not yet bound; connections being closed; whether the map was cleared
      without a sweep since; and, as history, what each generation of each user stood for. */
  datatype State = State(
    users: Users,
    lastGen: nat,
    held: Option<Users>,
    conns: map<nat, Option<Login>>,
    logins: map<nat, Login>,
    closing: set<nat>,
    cleared: bool,
    log: map<Stamp, Proof>)

  datatype Action =
    | Track(c: nat)
    | Auth(c: nat, user: string, secret: Secret)
    | Bind(c: nat)
    | BeginPublish
    | EndPublish(next: Users, newLast: nat)
    | ClearUsers
    | CloseConns
    | Untrack(c: nat)

  const START := State(map[], 0, None, map[], map[], {}, false, map[])

  function LoginOf(s: State, user: string, secret: Secret): Login
    requires user in s.users
  {
    Login(user, s.users[user].gen, secret, ProofOf(s.users[user]))
  }

  predicate IsCurrent(users: Users, l: Login) { l.user in users && users[l.user].gen == l.gen }

  /** The bound connections a map no longer supports. */
  function Stale(users: Users, conns: map<nat, Option<Login>>): set<nat> {
    set c | c in conns && conns[c].Some? && !IsCurrent(users, conns[c].value)
  }

  function Generations(users: Users): (log: map<Stamp, Proof>)
    ensures forall k | k in log :: k.user in users && users[k.user].gen == k.gen && log[k] == ProofOf(users[k.user])
    ensures forall n | n in users :: Stamp(n, users[n].gen) in log
  {
    map n | n in users :: Stamp(n, users[n].gen) := ProofOf(users[n])
  }

  function Step(s: State, a: Action): State {
    match a
    case Track(c) => if s.held.Some? || c in s.conns then s else s.(conns := s.conns[c := None])
    case Auth(c, user, secret) =>
      if user in s.users && Accepts(s.users[user], secret) then s.(logins := s.logins[c := LoginOf(s, user, secret)]) else s
    case Bind(c) =>
      if s.held.Some? || c !in s.logins then s
      else if c !in s.conns || s.logins[c].user == "" || s.logins[c].gen == 0 then s.(closing := s.closing + {c})
      else s.(conns := s.conns[c := Some(s.logins[c])],
              closing := s.closing + if IsCurrent(s.users, s.logins[c]) then {} else {c})
    case BeginPublish => if s.held.Some? then s else s.(held := Some(s.users))
    case EndPublish(next, newLast) =>
      if s.held.None? || !Numbered(s.held.value, next, s.lastGen, newLast) then s
      else s.(users := next, lastGen := newLast, held := None, cleared := false,
              closing := s.closing + Stale(next, s.conns), log := s.log + Generations(next))
    case ClearUsers => s.(users := map[], cleared := true)
    case CloseConns =>
      if s.held.Some? then s else s.(closing := s.closing + s.conns.Keys, conns := map[], cleared := false)
    case Untrack(c) => if s.held.Some? then s else s.(conns := s.conns - {c})
  }

  function Run(s: State, actions: seq<Action>): State
    decreases |actions|
  {
    if actions == [] then s else Run(Step(s, actions[0]), actions[1..])
  }

  ghost predicate Logged(s: State, users: Users) {
    forall n | n in users ::
      0 < users[n].gen <= s.lastGen && Stamp(n, users[n].gen) in s.log && s.log[Stamp(n, users[n].gen)] == ProofOf(users[n])
  }

  ghost predicate LoginLogged(s: State, l: Login) {
    Stamp(l.user, l.gen) in s.log && s.log[Stamp(l.user, l.gen)] == l.proof && Opens(l.proof, l.secret)
  }

  ghost predicate Bounded(s: State) { forall k | k in s.log :: k.gen <= s.lastGen }

  ghost predicate LoginsLogged(s: State) {
    && (forall c | c in s.logins :: LoginLogged(s, s.logins[c]))
    && (forall c | c in s.conns && s.conns[c].Some? :: LoginLogged(s, s.conns[c].value))
  }

  ghost predicate NoneStale(s: State) {
    !s.cleared ==> forall c | c in s.conns && s.conns[c].Some? && c !in s.closing :: IsCurrent(s.users, s.conns[c].value)
  }

  ghost predicate Invariant(s: State) {
    && Bounded(s) && Logged(s, s.users) && (s.held.Some? ==> Logged(s, s.held.value))
    && LoginsLogged(s) && NoneStale(s)
  }

  /** Numbering gives no generation of a user two meanings. */
  lemma {:induction false} PublishExtendsLog(s: State, next: Users, newLast: nat)
    requires s.held.Some? && Logged(s, s.held.value) && Numbered(s.held.value, next, s.lastGen, newLast) && Bounded(s)
    ensures forall k | k in s.log && k in Generations(next) :: Generations(next)[k] == s.log[k]
    ensures forall n | n in next :: 0 < next[n].gen <= newLast
    ensures s.lastGen <= newLast
  {
    hide Generations;
    forall n | n in next ensures 0 < next[n].gen <= newLast {
      if n in s.held.value { assert s.held.value[n].gen > 0; }
    }
    forall k | k in s.log && k in Generations(next) ensures Generations(next)[k] == s.log[k] {
      var n := k.user;
      assert next[n].gen == k.gen <= s.lastGen;
      assert Stamp(n, next[n].gen) == k;
    }
  }

  lemma {:induction false} StepKeepsInvariant(s: State, a: Action)
    requires Invariant(s)
    ensures Invariant(Step(s, a))
  {
    match a
    case Auth(c, user, secret) => LoginIsLogged(s, user, secret);
    case Bind(c) => BindKeepsInvariant(s, c);
    case EndPublish(next, newLast) => EndPublishKeepsInvariant(s, next, newLast);
    case Track(c) => TableKeepsInvariant(s, a);
    case Untrack(c) => TableKeepsInvariant(s, a);
    case CloseConns => TableKeepsInvariant(s, a);
    case BeginPublish =>
    case ClearUsers =>
  }

  lemma {:induction false} LoginIsLogged(s: State, user: string, secret: Secret)
    requires Logged(s, s.users)
    ensures user in s.users && Accepts(s.users[user], secret) ==> LoginLogged(s, LoginOf(s, user, secret))
  {
    if user in s.users { AcceptsIffOpens(s.users[user], secret); }
  }

  lemma {:induction false} BindKeepsInvariant(s: State, c: nat)
    requires Invariant(s)
    ensures Invariant(Step(s, Bind(c)))
  {
    hide LoginLogged, IsCurrent, Logged, Bounded;
    var t := Step(s, Bind(c));
    assert t.users == s.users && t.log == s.log && t.lastGen == s.lastGen;
    SameLog(s, t);
  }

  lemma {:induction false} TableKeepsInvariant(s: State, a: Action)
    requires Invariant(s) && (a.Track? || a.Untrack? || a.CloseConns?)
    ensures Invariant(Step(s, a))
  {
    hide LoginLogged, IsCurrent, Logged, Bounded;
    SameLog(s, Step(s, a));
  }

  /** The log and the numbering are all that logging looks at. */
  lemma {:induction false} SameLog(s: State, t: State)
    requires t.log == s.log && t.lastGen == s.lastGen
    ensures Bounded(t) == Bounded(s)
    ensures forall users :: Logged(t, users) == Logged(s, users)
    ensures forall l :: LoginLogged(t, l) == LoginLogged(s, l)
  {
  }

  lemma {:induction false} LogGrows(s: State, t: State)
    requires forall k | k in s.log :: k in t.log && t.log[k] == s.log[k]
    requires LoginsLogged(s) && t.logins == s.logins && t.conns == s.conns
    ensures LoginsLogged(t)
  {
  }

  lemma {:induction false} PublishedIsLogged(s: State, t: State, next: Users)
    requires Bounded(s) && s.lastGen <= t.lastGen && t.log == s.log + Generations(next)
    requires forall n | n in next :: 0 < next[n].gen <= t.lastGen
    ensures Logged(t, next) && Bounded(t)
  {
    hide Generations, ProofOf;
    forall n | n in next ensures Stamp(n, next[n].gen) in t.log && t.log[Stamp(n, next[n].gen)] == ProofOf(next[n]) {
      assert Stamp(n, next[n].gen) in Generations(next);
    }
  }

  lemma {:induction false} SweptIsCurrent(t: State, closed: set<nat>)
    requires t.closing == closed + Stale(t.users, t.conns)
    ensures NoneStale(t)
  {
    forall c | c in t.conns && t.conns[c].Some? && c !in t.closing ensures IsCurrent(t.users, t.conns[c].value) {
      assert c !in Stale(t.users, t.conns);
    }
  }

  lemma {:induction false} EndPublishKeepsInvariant(s: State, next: Users, newLast: nat)
    requires Invariant(s)
    ensures Invariant(Step(s, EndPublish(next, newLast)))
  {
    hide Generations, Numbered, Logged, Bounded, LoginsLogged, NoneStale, Stale;
    if s.held.Some? && Numbered(s.held.value, next, s.lastGen, newLast) {
      var t := Step(s, EndPublish(next, newLast));
      PublishExtendsLog(s, next, newLast);
      LogGrows(s, t);
      PublishedIsLogged(s, t, next);
      SweptIsCurrent(t, s.closing);
    }
  }

  lemma {:induction false} RunKeepsInvariant(s: State, actions: seq<Action>)
    requires Invariant(s)
    ensures Invariant(Run(s, actions))
    decreases |actions|
  {
    hide Invariant, Step;
    if actions != [] {
      StepKeepsInvariant(s, actions[0]);
      RunKeepsInvariant(Step(s, actions[0]), actions[1..]);
    }
  }

  /** In every interleaving, unless the map was just cleared, a tracked bound connection that is not
      being closed carries its user's live generation, the password bytes and key multiset it
      authenticated against are the live ones, and what it showed would be accepted now. */
  lemma {:induction false} BoundConnectionsAreCurrent(actions: seq<Action>, s: State, c: nat)
    requires s == Run(START, actions) && !s.cleared
    requires c in s.conns && s.conns[c].Some? && c !in s.closing
    ensures var l := s.conns[c].value;
      && l.user in s.users && s.users[l.user].gen == l.gen && ProofOf(s.users[l.user]) == l.proof
      && Accepts(s.users[l.user], l.secret)
  {
    RunKeepsInvariant(START, actions);
    var l := s.conns[c].value;
    AcceptsIffOpens(s.users[l.user], l.secret);
  }

  // ------------------------------------------------------- the steps and the server

  /** The connection table as the server keeps it. */
  function TableOf(conns: map<nat, Option<Login>>): map<nat, Tracked> {
    map c | c in conns :: match conns[c] { case None => Tracked("", 0) case Some(l) => Tracked(l.user, l.gen) }
  }

  /** A binding step does to the table what BindAuth does, and closes when BindAuth asks for it. */
  lemma {:induction false} BindRefines(s: State, c: nat)
    requires s.held.None? && c in s.logins && s.logins[c].gen <= MAX_UINT64
    ensures var t, l := Step(s, Bind(c)), s.logins[c];
      var (conns, close) := Bound(s.users, TableOf(s.conns), c, l.user, if l.gen == 0 then "" else Decimal(l.gen));
      TableOf(t.conns) == conns && t.closing == s.closing + (if close then {c} else {})
  {
    if s.logins[c].gen > 0 { GenerationReadsBack(s.logins[c].gen); }
  }

  /** No connection is bound to a user without a name. */
  predicate BoundNamed(s: State) { forall c | c in s.conns && s.conns[c].Some? :: s.conns[c].value.user != "" }

  /** Publishing closes exactly what PublishUsers returns. */
  lemma {:induction false} PublishRefines(s: State, next: Users)
    requires BoundNamed(s)
    ensures var table := TableOf(s.conns);
      Stale(next, s.conns) == set c | c in table && table[c].user != "" && !Current(next, table[c])
  {
  }

  lemma {:induction false} StepKeepsNamed(s: State, a: Action)
    requires BoundNamed(s)
    ensures BoundNamed(Step(s, a))
  {
    hide Numbered, Stale, Generations, IsCurrent, Accepts, LoginOf;
  }

  lemma {:induction false} RunKeepsNamed(s: State, actions: seq<Action>)
    requires BoundNamed(s)
    ensures BoundNamed(Run(s, actions))
    decreases |actions|
  {
    hide Step, BoundNamed;
    if actions != [] {
      StepKeepsNamed(s, actions[0]);
      RunKeepsNamed(Step(s, actions[0]), actions[1..]);
    }
  }

  // ------------------------------------------------------------ nobody else is closed

  /** Connection c is bound, tracked, not being closed, and current; a publication under way starts from
      the live map. */
  predicate Undisturbed(s: State, c: nat, l: Login) {
    && c in s.conns && s.conns[c] == Some(l) && c !in s.closing && IsCurrent(s.users, l)
    && (s.held.Some? ==> s.held.value == s.users)
  }

  /** The step leaves the user's credentials alone and is not about this connection. */
  predicate Spares(c: nat, l: Login, a: Action) {
    match a
    case EndPublish(next, _) => l.user in next && ProofOf(next[l.user]) == l.proof
    case ClearUsers => false
    case CloseConns => false
    case Untrack(x) => x != c
    case Bind(x) => x != c
    case _ => true
  }

  lemma {:induction false} StepKeepsUndisturbed(s: State, c: nat, l: Login, a: Action)
    requires Invariant(s) && Undisturbed(s, c, l) && Spares(c, l, a)
    ensures Undisturbed(Step(s, a), c, l)
  {
    hide Generations, Bounded, NoneStale;
    assert LoginLogged(s, l);
    assert s.users[l.user].gen > 0 && ProofOf(s.users[l.user]) == l.proof;
  }

  /** A rotation closes no connection whose user's credentials it leaves as they are, however often the
      files are reloaded and whatever else goes on. */
  lemma {:induction false} UnrotatedConnectionStays(s: State, c: nat, l: Login, actions: seq<Action>)
    requires Invariant(s) && Undisturbed(s, c, l) && forall i | 0 <= i < |actions| :: Spares(c, l, actions[i])
    ensures var t := Run(s, actions); c in t.conns && t.conns[c] == Some(l) && c !in t.closing
    decreases |actions|
  {
    hide Step, Invariant, Spares;
    if actions != [] {
      StepKeepsInvariant(s, actions[0]);
      StepKeepsUndisturbed(s, c, l, actions[0]);
      UnrotatedConnectionStays(Step(s, actions[0]), c, l, actions[1..]);
    }
  }

  /** A rotation closes every bound connection whose user's credentials it changes or removes. */
  lemma {:induction false} RotatedConnectionGoes(s: State, c: nat, l: Login, next: Users, newLast: nat)
    requires Invariant(s) && c in s.conns && s.conns[c] == Some(l)
    requires s.held.Some? && Numbered(s.held.value, next, s.lastGen, newLast)
    requires l.user !in next || ProofOf(next[l.user]) != l.proof
    ensures c in Step(s, EndPublish(next, newLast)).closing
  {
    hide Generations, NoneStale;
    assert LoginLogged(s, l);
    if l.user in next {
      PublishExtendsLog(s, next, newLast);
      StampsAgree(s, next, l);
    }
  }

  lemma {:induction false} StampsAgree(s: State, next: Users, l: Login)
    requires l.user in next && LoginLogged(s, l)
    requires forall k | k in s.log && k in Generations(next) :: Generations(next)[k] == s.log[k]
    ensures next[l.user].gen == l.gen ==> ProofOf(next[l.user]) == l.proof
  {
    var k := Stamp(l.user, next[l.user].gen);
    assert k in Generations(next);
  }
}
