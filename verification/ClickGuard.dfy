/**
The guard against repeated clicks: the first of several equal requests takes a lock that lives for a
fixed time, and the others are turned away while it lives.
*/
module ClickGuard {
  import opened Canonical
  import opened Texts

  /** `hash` is the digest, `text` the JSON text of a tree. `enabled` is whether the lock store is configured at all. */
  datatype Options = Options(
    ttl: nat, methods: seq<string>, keyPrefix: string, includeQuery: bool, failOpen: bool, ignored: string -> bool,
    enabled: bool, hash: string -> string, text: Json -> string)

  /** `at` is when the request reaches the store, and `storeFails` whether the store then answers with an error. */
  datatype Request = Request(
    verb: string, url: string, token: string, ip: string, forwardedFor: string,
    body: Json, params: Json, query: Json, at: int, storeFails: bool)

  datatype Outcome = Passed | Duplicate | Unavailable

  /** Lock keys with the moment they expire. */
  type Locks = map<string, int>

  function Upper(s: string): string {
    seq(|s|, i requires 0 <= i < |s| => if 'a' <= s[i] <= 'z' then s[i] - 'a' + 'A' else s[i])
  }

  function BeforeQuery(url: string): string {
    if url == [] || url[0] == '?' then [] else [url[0]] + BeforeQuery(url[1..])
  }

  predicate Guarded(o: Options, r: Request) {
    Upper(r.verb) in o.methods && !o.ignored(BeforeQuery(r.url))
  }

  datatype Origin = Token(text: string) | Address(text: string)

  function OriginOf(r: Request): Origin {
    if r.token != "" then Token(r.token)
    else Address(if r.ip != "" then r.ip else if r.forwardedFor != "" then r.forwardedFor else "unknown")
  }

  function Subject(o: Options, r: Request): string {
    match OriginOf(r)
    case Token(t) => "token" + ":" + o.hash(t)
    case Address(a) => "ip" + ":" + o.hash(a)
  }

  function Payload(o: Options, r: Request): Json {
    var always := [Field("body", Normalize(r.body)), Field("params", Normalize(r.params))];
    Obj(if o.includeQuery then always + [Field("query", Normalize(r.query))] else always)
  }

  function Fingerprint(o: Options, r: Request): string {
    Upper(r.verb) + ":" + (BeforeQuery(r.url) + ":" + Subject(o, r) + ":" + o.hash(o.text(Payload(o, r))))
  }

  function Key(o: Options, r: Request): string {
    o.keyPrefix + ":" + o.hash(Fingerprint(o, r))
  }

  predicate Held(locks: Locks, key: string, now: int) {
    key in locks && now < locks[key]
  }

  function Handle(o: Options, locks: Locks, r: Request): (Locks, Outcome) {
    if !Guarded(o, r) || !o.enabled then (locks, Passed)
    else if r.storeFails then (locks, if o.failOpen then Passed else Unavailable)
    else if Held(locks, Key(o, r), r.at) then (locks, Duplicate)
    else (locks[Key(o, r) := r.at + o.ttl], Passed)
  }

  class Guard {
    const o: Options
    var locks: Locks

    constructor (o: Options)
      ensures this.o == o && locks == map[]
    {
      this.o := o;
      locks := map[];
    }

    method SetIfNotExists(key: string, now: int) returns (locked: bool)
      modifies this`locks
      ensures locked == !(o.enabled && Held(old(locks), key, now))
      ensures locks == if o.enabled && locked then old(locks)[key := now + o.ttl] else old(locks)
    {
      if !o.enabled { return true; }
      if key in locks && now < locks[key] { return false; }
      locks := locks[key := now + o.ttl];
      return true;
    }

    method PreventDuplicateClicks(r: Request) returns (outcome: Outcome)
      modifies this`locks
      ensures (locks, outcome) == Handle(o, old(locks), r)
    {
      if !Guarded(o, r) { return Passed; }
      if o.enabled && r.storeFails { return if o.failOpen then Passed else Unavailable; }
      var locked := SetIfNotExists(Key(o, r), r.at);
      return if locked then Passed else Duplicate;
    }
  }

  // ----- Which requests are guarded, and whose they are

  predicate IsCapital(big: char, c: char) {
    if 'a' <= c <= 'z' then big as int == c as int - 32 else big == c
  }

  /** `listed` is the verb of the request in capitals. */
  predicate IsVerb(listed: string, verb: string) {
    |listed| == |verb| && forall i :: 0 <= i < |verb| ==> IsCapital(listed[i], verb[i])
  }

  /** `path` is what comes before the first question mark of the address. */
  predicate IsPath(path: string, url: string) {
    path <= url && '?' !in path && (|path| < |url| ==> url[|path|] == '?')
  }

  lemma {:induction false} PathExact(url: string, path: string)
    ensures IsPath(path, url) <==> path == BeforeQuery(url)
    decreases |url|
  {
    if url == [] || url[0] == '?' {
    } else {
      if path != [] {
        PathExact(url[1..], path[1..]);
        assert IsPath(path, url) <==> path[0] == url[0] && IsPath(path[1..], url[1..]) by {
          PathTail(path, url);
        }
        assert path == [path[0]] + path[1..];
      }
    }
  }

  lemma PathTail(path: string, url: string)
    requires path != [] && url != [] && url[0] != '?'
    ensures IsPath(path, url) <==> path[0] == url[0] && IsPath(path[1..], url[1..])
  {
    assert path == [path[0]] + path[1..] && url == [url[0]] + url[1..];
  }

  lemma VerbExact(listed: string, verb: string)
    ensures IsVerb(listed, verb) <==> listed == Upper(verb)
  {
  }

  /** A request is guarded exactly if its verb is listed and its path is not among those ignored. */
  lemma GuardedExact(o: Options, r: Request)
    ensures Guarded(o, r) <==>
            (exists m :: m in o.methods && IsVerb(m, r.verb)) && exists p :: IsPath(p, r.url) && !o.ignored(p)
  {
    VerbExact(Upper(r.verb), r.verb);
    PathExact(r.url, BeforeQuery(r.url));
    if m :| m in o.methods && IsVerb(m, r.verb) {
      VerbExact(m, r.verb);
    }
    if p :| IsPath(p, r.url) && !o.ignored(p) {
      PathExact(r.url, p);
    }
  }

  /** The sender is the token if there is one, else the address, else the forwarded address. */
  lemma OriginExact(r: Request)
    ensures r.token != "" ==> OriginOf(r) == Token(r.token)
    ensures r.token == "" && r.ip != "" ==> OriginOf(r) == Address(r.ip)
    ensures r.token == "" && r.ip == "" ==>
              OriginOf(r) == Address(if r.forwardedFor == "" then "unknown" else r.forwardedFor)
  {
  }

  /** Requests that are not guarded pass, and all do if there is no store; if the store fails the setting decides. */
  lemma WithoutLock(o: Options, locks: Locks, r: Request)
    ensures !Guarded(o, r) || !o.enabled ==> Handle(o, locks, r) == (locks, Passed)
    ensures Guarded(o, r) && o.enabled && r.storeFails ==>
              Handle(o, locks, r) == (locks, if o.failOpen then Passed else Unavailable)
    ensures Guarded(o, r) && o.enabled && !r.storeFails ==>
              Handle(o, locks, r).1 == Passed || Handle(o, locks, r) == (locks, Duplicate)
  {
  }

  // ----- Which requests share a lock

  /** The digest and the JSON text tell inputs apart, digests have no colon, and neither have the guarded methods. */
  ghost predicate Sound(o: Options) {
    && (forall x, y :: o.hash(x) == o.hash(y) ==> x == y)
    && (forall x, y :: o.text(x) == o.text(y) ==> x == y)
    && (forall x :: NoColon(o.hash(x)))
    && (forall m :: m in o.methods ==> NoColon(m))
  }

  /** The same click: method, path, sender and content are the same, whatever the order of keys. */
  ghost predicate SameClick(o: Options, a: Request, b: Request) {
    && Upper(a.verb) == Upper(b.verb) && BeforeQuery(a.url) == BeforeQuery(b.url) && OriginOf(a) == OriginOf(b)
    && Same(a.body, b.body, {PROTO}) && Same(a.params, b.params, {PROTO})
    && (o.includeQuery ==> Same(a.query, b.query, {PROTO}))
  }

  predicate Proper(r: Request) {
    Distinct(r.body) && Distinct(r.params) && Distinct(r.query)
  }

  lemma SubjectExact(o: Options, a: Request, b: Request)
    requires Sound(o)
    ensures Subject(o, a) == Subject(o, b) <==> OriginOf(a) == OriginOf(b)
  {
    if Subject(o, a) == Subject(o, b) {
      LastColon(Kind(a), o.hash(OriginOf(a).text), Kind(b), o.hash(OriginOf(b).text));
    }
  }

  lemma PayloadExact(o: Options, a: Request, b: Request)
    requires Proper(a) && Proper(b)
    ensures Payload(o, a) == Payload(o, b) <==>
            Same(a.body, b.body, {PROTO}) && Same(a.params, b.params, {PROTO})
                && (o.includeQuery ==> Same(a.query, b.query, {PROTO}))
  {
    CanonicalExact(a.body, b.body);
    CanonicalExact(a.params, b.params);
    CanonicalExact(a.query, b.query);
    var p, q := Payload(o, a).fields, Payload(o, b).fields;
    if p == q {
      assert p[0] == q[0] && p[1] == q[1];
      assert o.includeQuery ==> p[2] == q[2];
    }
  }

  /** Two guarded requests share a lock exactly when they are the same click. */
  lemma KeyExact(o: Options, a: Request, b: Request)
    requires Sound(o) && Guarded(o, a) && Guarded(o, b) && Proper(a) && Proper(b)
    ensures Key(o, a) == Key(o, b) <==> SameClick(o, a, b)
  {
    SubjectExact(o, a, b);
    PayloadExact(o, a, b);
    if Key(o, a) == Key(o, b) {
      LastColon(o.keyPrefix, o.hash(Fingerprint(o, a)), o.keyPrefix, o.hash(Fingerprint(o, b)));
      RestEqual(o, a, b);
    }
  }

  /** Only the path may hold colons, so the five parts of a fingerprint can be told apart. */
  lemma PartsEqual(m: string, x: string, k: string, s: string, p: string,
                   m': string, x': string, k': string, s': string, p': string)
    requires NoColon(m) && NoColon(k) && NoColon(s) && NoColon(p)
    requires NoColon(m') && NoColon(k') && NoColon(s') && NoColon(p')
    requires m + ":" + (x + ":" + (k + ":" + s) + ":" + p) == m' + ":" + (x' + ":" + (k' + ":" + s') + ":" + p')
    ensures m == m' && x == x' && k == k' && s == s' && p == p'
  {
    FirstColon(m, x + ":" + (k + ":" + s) + ":" + p, m', x' + ":" + (k' + ":" + s') + ":" + p');
    LastColon(x + ":" + (k + ":" + s), p, x' + ":" + (k' + ":" + s'), p');
    assert x + ":" + (k + ":" + s) == x + ":" + k + ":" + s && x' + ":" + (k' + ":" + s') == x' + ":" + k' + ":" + s';
    LastColon(x + ":" + k, s, x' + ":" + k', s');
    LastColon(x, k, x', k');
  }

  function Kind(r: Request): string {
    if OriginOf(r).Token? then "token" else "ip"
  }

  lemma RestEqual(o: Options, a: Request, b: Request)
    requires Sound(o) && Guarded(o, a) && Guarded(o, b) && Fingerprint(o, a) == Fingerprint(o, b)
    ensures Upper(a.verb) == Upper(b.verb) && BeforeQuery(a.url) == BeforeQuery(b.url)
    ensures Subject(o, a) == Subject(o, b) && Payload(o, a) == Payload(o, b)
  {
    PartsEqual(Upper(a.verb), BeforeQuery(a.url), Kind(a), o.hash(OriginOf(a).text), o.hash(o.text(Payload(o, a))),
               Upper(b.verb), BeforeQuery(b.url), Kind(b), o.hash(OriginOf(b).text), o.hash(o.text(Payload(o, b))));
  }

  // ----- Runs

  function LocksAfter(o: Options, rs: seq<Request>): Locks {
    if rs == [] then map[] else Handle(o, LocksAfter(o, rs[..|rs| - 1]), rs[|rs| - 1]).0
  }

  function OutcomeAt(o: Options, rs: seq<Request>, i: nat): Outcome
    requires i < |rs|
  {
    Handle(o, LocksAfter(o, rs[..i]), rs[i]).1
  }

  predicate InOrder(rs: seq<Request>) {
    forall i, j :: 0 <= i < j < |rs| ==> rs[i].at <= rs[j].at
  }

  predicate StoreAnswers(rs: seq<Request>) {
    forall i :: 0 <= i < |rs| ==> !rs[i].storeFails
  }

  predicate Takes(o: Options, rs: seq<Request>, i: nat, key: string)
    requires i < |rs|
  {
    Guarded(o, rs[i]) && Key(o, rs[i]) == key && OutcomeAt(o, rs, i) == Passed
  }

  /** A request that takes the lock sets when it expires; no other request changes that. */
  lemma EntryAfter(o: Options, locks: Locks, r: Request, key: string)
    requires o.enabled && !r.storeFails
    ensures Guarded(o, r) && Key(o, r) == key && Handle(o, locks, r).1 == Passed ==>
              key in Handle(o, locks, r).0 && Handle(o, locks, r).0[key] == r.at + o.ttl
    ensures !(Guarded(o, r) && Key(o, r) == key && Handle(o, locks, r).1 == Passed) ==>
              && (key in Handle(o, locks, r).0 <==> key in locks)
              && (key in locks ==> Handle(o, locks, r).0[key] == locks[key])
  {
  }

  /** A lock expires a lifetime after the last request that took it. */
  lemma {:induction false} LocksMean(o: Options, rs: seq<Request>, key: string)
    requires o.enabled && InOrder(rs) && StoreAnswers(rs)
    ensures forall i :: 0 <= i < |rs| && Takes(o, rs, i, key) ==>
              key in LocksAfter(o, rs) && LocksAfter(o, rs)[key] >= rs[i].at + o.ttl
    ensures key in LocksAfter(o, rs) ==>
              exists i :: 0 <= i < |rs| && Takes(o, rs, i, key) && LocksAfter(o, rs)[key] == rs[i].at + o.ttl
    decreases |rs|
  {
    if rs != [] {
      var n := |rs| - 1;
      var front := rs[..n];
      LocksMean(o, front, key);
      EntryAfter(o, LocksAfter(o, front), rs[n], key);
      forall i | 0 <= i < n ensures Takes(o, rs, i, key) <==> Takes(o, front, i, key) {
        assert front[..i] == rs[..i] && front[i] == rs[i];
      }
      if !Takes(o, rs, n, key) && key in LocksAfter(o, rs) {
        var i :| 0 <= i < |front| && Takes(o, front, i, key) && LocksAfter(o, front)[key] == front[i].at + o.ttl;
        assert Takes(o, rs, i, key) && rs[i] == front[i];
      }
    }
  }

  /**
  Over any run a guarded request passes exactly when every earlier passed request that was the same
  click lies at least a lifetime back. So of equal clicks any two that pass are that far apart.
  */
  lemma PassesIff(o: Options, rs: seq<Request>, i: nat)
    requires Sound(o) && o.enabled && InOrder(rs) && StoreAnswers(rs) && forall k :: 0 <= k < |rs| ==> Proper(rs[k])
    requires i < |rs| && Guarded(o, rs[i])
    ensures OutcomeAt(o, rs, i) == Passed <==>
            forall j ::
              0 <= j < i && Guarded(o, rs[j]) && OutcomeAt(o, rs, j) == Passed && SameClick(o, rs[j], rs[i]) ==>
                rs[i].at - rs[j].at >= o.ttl
  {
    var key, front := Key(o, rs[i]), rs[..i];
    LocksMean(o, front, key);
    forall j | 0 <= j < i
      ensures Takes(o, front, j, key) <==>
              Guarded(o, rs[j]) && OutcomeAt(o, rs, j) == Passed && SameClick(o, rs[j], rs[i])
    {
      assert front[..j] == rs[..j] && front[j] == rs[j];
      if Guarded(o, rs[j]) {
        KeyExact(o, rs[j], rs[i]);
      }
    }
  }
}
