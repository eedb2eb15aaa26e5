/** API tokens: the command-line tool creates, revokes and rotates them, the service authenticates with them. */
module Tokens {
  import opened Common

  const MAX_OWNER_LEN: nat := 64

  datatype Status = Valid | Expired | Revoked

  /** A stored token; times are whole seconds, and the hash stands for the secret it was made from. */
  datatype Token = Token(owner: string, hash: int, createdAt: int, expiresAt: int, status: Status, service: bool,
                         invalidatedAt: Option<int>)
  {
    function Lifetime(): int {
      expiresAt - createdAt
    }
  }

  /** What the tokens of a rotation chain share, and the last of them. */
  datatype Chain = Chain(owner: string, service: bool, lifetime: int, last: nat)
  {
    ghost predicate Agrees(t: Token) {
      t.owner == owner && t.service == service && t.Lifetime() == lifetime
    }
  }

  /** All tokens, the next identifier, and the rotation chains: the first token of each token's chain names it. */
  datatype Store = Store(tokens: map<nat, Token>, next: nat, root: map<nat, nat>, chains: map<nat, Chain>)
  {
    ghost predicate Valid() {
      && tokens.Keys == root.Keys
      && forall id :: id in tokens ==> id < next && root[id] < next
    }

    /** Each token agrees with its chain, and a valid one is the last of it. */
    ghost predicate Chained() {
      forall a :: a in root ==>
        && a in tokens && root[a] in chains && chains[root[a]].Agrees(tokens[a])
        && (tokens[a].status.Valid? ==> chains[root[a]].last == a)
    }
  }

  const EMPTY: Store := Store(map[], 1, map[], map[])

  /** A command with the clock at its time; `hash` is that of a fresh secret, `candidate` that of the presented one. */
  datatype Step =
    | Create(owner: string, expiresAt: int, service: bool, hash: int, now: int)
    | Revoke(id: nat, now: int)
    | Rotate(id: nat, hash: int, now: int, commits: bool)
    | Authenticate(id: nat, candidate: int, now: int)

  datatype Reply =
    | Issued(id: nat) | Done | NotFound | OwnerTooLong | IsExpired | IsRevoked | RolledBack
    | Granted(until: int, service: bool) | Refused

  function Invalidated(s: Store, id: nat, status: Status, now: int): Store
    requires id in s.tokens
  {
    s.(tokens := s.tokens[id := s.tokens[id].(status := status, invalidatedAt := Some(now))])
  }

  function Inserted(s: Store, t: Token, root: nat): Store {
    Store(s.tokens[s.next := t], s.next + 1, s.root[s.next := root],
        s.chains[root := Chain(t.owner, t.service, t.Lifetime(), s.next)])
  }

  /** The answer to a command on an unusable token, if it is one. */
  function Unusable(t: Token, now: int): Option<Reply> {
    match t.status
    case Expired => Some(IsExpired)
    case Revoked => Some(IsRevoked)
    case Valid => if now >= t.expiresAt then Some(IsExpired) else None
  }

  ghost function ReplyTo(s: Store, step: Step): Reply {
    match step
    case Create(owner, _, _, _, _) => if |owner| > MAX_OWNER_LEN then OwnerTooLong else Issued(s.next)
    case Revoke(id, now) =>
      if id !in s.tokens then NotFound
      else if Unusable(s.tokens[id], now).Some? then Unusable(s.tokens[id], now).value else Done
    case Rotate(id, _, now, commits) =>
      if id !in s.tokens then NotFound
      else if Unusable(s.tokens[id], now).Some? then Unusable(s.tokens[id], now).value
      else if commits then Issued(s.next) else RolledBack
    case Authenticate(id, candidate, now) =>
      if id !in s.tokens then NotFound
      else if Unusable(s.tokens[id], now).Some? then Unusable(s.tokens[id], now).value
      else if s.tokens[id].hash == candidate then Granted(s.tokens[id].expiresAt, s.tokens[id].service) else Refused
  }

  ghost function After(s: Store, step: Step): Store {
    match step
    case Create(owner, expiresAt, service, hash, now) =>
      if |owner| > MAX_OWNER_LEN then s
      else Inserted(s, Token(owner, hash, now, expiresAt, Status.Valid, service, None), s.next)
    case Revoke(id, now) =>
      if ReplyTo(s, step).Done? then Invalidated(s, id, Revoked, now) else s
    case Rotate(id, hash, now, _) =>
      if ReplyTo(s, step).Issued? && id in s.root then
        var t := s.tokens[id];
        Inserted(Invalidated(s, id, Revoked, now),
                 Token(t.owner, hash, now, now + t.Lifetime(), Status.Valid, t.service, None), s.root[id])
      else s
    case Authenticate(id, _, now) =>
      if id in s.tokens && s.tokens[id].status.Valid? && now >= s.tokens[id].expiresAt
      then Invalidated(s, id, Expired, now) else s
  }

  ghost function Run(s: Store, steps: seq<Step>): Store {
    if steps == [] then s else After(Run(s, steps[..|steps| - 1]), steps[|steps| - 1])
  }

  // ---------------------------------------------------------------- one step

  lemma StepValid(s: Store, step: Step)
    requires s.Valid()
    ensures After(s, step).Valid()
  {
  }

  /** No step changes a token that is not valid, and a valid one changes only by being invalidated. */
  ghost predicate Kept(t: Token, u: Token) {
    u == t || (t.status.Valid? && !u.status.Valid? && u == t.(status := u.status, invalidatedAt := u.invalidatedAt))
  }

  lemma StepKeeps(s: Store, step: Step, id: nat)
    requires s.Valid() && id in s.tokens
    ensures id in After(s, step).tokens && Kept(s.tokens[id], After(s, step).tokens[id])
  {
  }

  lemma InvalidatedChained(s: Store, id: nat, status: Status, now: int)
    requires s.Valid() && s.Chained() && id in s.tokens && !status.Valid?
    ensures Invalidated(s, id, status, now).Valid() && Invalidated(s, id, status, now).Chained()
  {
  }

  lemma NewChain(s: Store, t: Token)
    requires s.Valid() && s.Chained()
    ensures Inserted(s, t, s.next).Chained()
  {
  }

  /** A new token may join a chain it agrees with when the last of it is not valid. */
  lemma InsertedChained(s: Store, t: Token, root: nat)
    requires s.Valid() && s.Chained()
    requires root in s.chains && s.chains[root].Agrees(t)
    requires root in s.chains && s.chains[root].last in s.tokens ==> !s.tokens[s.chains[root].last].status.Valid?
    ensures Inserted(s, t, root).Chained()
  {
  }

  lemma RotateChained(s: Store, step: Step)
    requires s.Valid() && s.Chained() && step.Rotate? && ReplyTo(s, step).Issued?
    ensures After(s, step).Chained()
  {
    var t, id := s.tokens[step.id], step.id;
    InvalidatedChained(s, id, Revoked, step.now);
    InsertedChained(Invalidated(s, id, Revoked, step.now),
                    Token(t.owner, step.hash, step.now, step.now + t.Lifetime(), Status.Valid, t.service, None),
                    s.root[id]);
  }

  lemma StepChained(s: Store, step: Step)
    requires s.Valid() && s.Chained()
    ensures After(s, step).Chained()
  {
    match step
    case Create(owner, expiresAt, service, hash, now) =>
      NewChain(s, Token(owner, hash, now, expiresAt, Status.Valid, service, None));
    case Revoke(id, now) =>
      if id in s.tokens { InvalidatedChained(s, id, Revoked, now); }
    case Authenticate(id, _, now) =>
      if id in s.tokens { InvalidatedChained(s, id, Expired, now); }
    case Rotate(_, _, _, _) =>
      if ReplyTo(s, step).Issued? { RotateChained(s, step); }
  }

  /** What a login to a token gets from a valid row. */
  ghost predicate Opens(s: Store, id: nat, hash: int, expiresAt: int, service: bool) {
    forall candidate, now ::
      ReplyTo(s, Authenticate(id, candidate, now)) ==
      if now >= expiresAt then IsExpired else if candidate == hash then Granted(expiresAt, service) else Refused
  }

  /** A created token lets its own secret in until it expires, and no other; every other row is as before. */
  lemma CreatedOpens(s: Store, step: Step)
    requires s.Valid() && step.Create? && ReplyTo(s, step).Issued?
    ensures var new', s' := ReplyTo(s, step).id, After(s, step);
      && new' !in s.tokens && s'.tokens.Keys == s.tokens.Keys + {new'}
      && Opens(s', new', step.hash, step.expiresAt, step.service)
      && s'.tokens[new'].owner == step.owner && s'.tokens[new'].createdAt == step.now
      && forall id :: id in s.tokens ==> s'.tokens[id] == s.tokens[id]
  {
  }

  /** A rotation issues a token under a new id that lets the fresh secret in, for as long as the old one was made for,
      with the same permission; the old token is revoked, and every other row is as before. */
  lemma RotatedOpens(s: Store, step: Step)
    requires s.Valid() && step.Rotate? && ReplyTo(s, step).Issued?
    ensures var old', new', s' := s.tokens[step.id], ReplyTo(s, step).id, After(s, step);
      && new' !in s.tokens && s'.tokens.Keys == s.tokens.Keys + {new'}
      && Opens(s', new', step.hash, step.now + (old'.expiresAt - old'.createdAt), old'.service)
      && s'.tokens[new'].owner == old'.owner && s'.tokens[new'].createdAt == step.now
      && s'.tokens[step.id] == old'.(status := Revoked, invalidatedAt := Some(step.now))
      && forall id :: id in s.tokens && id != step.id ==> s'.tokens[id] == s.tokens[id]
  {
  }

  // ---------------------------------------------------------------- whole runs

  /** Over every run a token leaves Valid at most once and never returns; from then on its row is frozen. */
  lemma {:induction false} LeavesValidOnce(s: Store, steps: seq<Step>, id: nat)
    requires s.Valid() && id in s.tokens
    ensures Run(s, steps).Valid() && id in Run(s, steps).tokens && Kept(s.tokens[id], Run(s, steps).tokens[id])
  {
    if steps != [] {
      var n := |steps| - 1;
      LeavesValidOnce(s, steps[..n], id);
      StepValid(Run(s, steps[..n]), steps[n]);
      StepKeeps(Run(s, steps[..n]), steps[n], id);
    }
  }

  lemma {:induction false} ChainsAlways(steps: seq<Step>)
    ensures Run(EMPTY, steps).Valid() && Run(EMPTY, steps).Chained()
  {
    if steps != [] {
      var n := |steps| - 1;
      ChainsAlways(steps[..n]);
      StepValid(Run(EMPTY, steps[..n]), steps[n]);
      StepChained(Run(EMPTY, steps[..n]), steps[n]);
    }
  }

  /** Over every run two tokens of one rotation chain have the same owner, permission and lifetime, and only one of
      them can be valid. */
  lemma OneValidPerChain(steps: seq<Step>, a: nat, b: nat)
    requires var s := Run(EMPTY, steps); a in s.root && b in s.root && s.root[a] == s.root[b]
    ensures var s := Run(EMPTY, steps);
      && a in s.tokens && b in s.tokens && s.tokens[a].owner == s.tokens[b].owner
      && s.tokens[a].service == s.tokens[b].service && s.tokens[a].Lifetime() == s.tokens[b].Lifetime()
      && (s.tokens[a].status.Valid? && s.tokens[b].status.Valid? ==> a == b)
  {
    ChainsAlways(steps);
  }

  /** A token once reported expired to a user, or revoked or rotated away, is never granted again, whatever the clocks
      of the steps in between and of the last one. */
  lemma NeverGrantedAgain(s: Store, first: Step, between: seq<Step>, last: Step)
    requires s.Valid() && last.Authenticate? && !first.Create? && first.id == last.id
    requires (first.Authenticate? && (ReplyTo(s, first).IsExpired? || ReplyTo(s, first).IsRevoked?)) ||
             (first.Revoke? && ReplyTo(s, first).Done?) || (first.Rotate? && ReplyTo(s, first).Issued?)
    ensures ReplyTo(Run(After(s, first), between), last) ==
            if After(s, first).tokens[last.id].status.Expired? then IsExpired else IsRevoked
  {
    StepValid(s, first);
    StepKeeps(s, first, last.id);
    LeavesValidOnce(After(s, first), between, last.id);
  }

  /** When revoke or rotate reports an expired token nothing is stored: after any further commands the token is granted
      exactly when they left its row alone, to the right secret, at a clock before its expiry, which means that the
      clock has gone back. */
  lemma ExpiredReportStickyIff(s: Store, first: Step, between: seq<Step>, last: Step)
    requires s.Valid() && last.Authenticate? && (first.Revoke? || first.Rotate?) && first.id == last.id
    requires first.id in s.tokens && s.tokens[first.id].status.Valid? && ReplyTo(s, first).IsExpired?
    ensures var s' := Run(After(s, first), between);
      && last.id in s'.tokens
      && (ReplyTo(s', last).Granted? <==>
            && s'.tokens[last.id] == s.tokens[last.id]
            && last.candidate == s.tokens[last.id].hash && last.now < s.tokens[last.id].expiresAt)
      && (ReplyTo(s', last).Granted? ==> last.now < first.now)
  {
    assert After(s, first) == s;
    LeavesValidOnce(s, between, last.id);
  }

  /** The clock goes back from 100 to 99 between a revocation and a login. */
  lemma ExpiredReportNotSticky(s: Store)
    requires s == Store(map[1 := Token("me", 7, 0, 100, Status.Valid, false, None)], 2, map[1 := 1],
        map[1 := Chain("me", false, 100, 1)])
    ensures ReplyTo(s, Revoke(1, 100)) == IsExpired
    ensures ReplyTo(After(s, Revoke(1, 100)), Authenticate(1, 7, 99)) == Granted(100, false)
  {
  }

  /** The step takes a token out of use by command. */
  ghost predicate Withdraws(s: Store, step: Step, id: nat) {
    || (step.Revoke? && step.id == id && ReplyTo(s, step).Done?)
    || (step.Rotate? && step.id == id && ReplyTo(s, step).Issued?)
  }

  ghost predicate IsRevokedIn(s: Store, id: nat) {
    id in s.tokens && s.tokens[id].status.Revoked?
  }

  /** One step makes a token revoked exactly when it withdraws it. */
  lemma RevokedStep(s: Store, step: Step, id: nat)
    requires s.Valid()
    ensures IsRevokedIn(After(s, step), id) <==> IsRevokedIn(s, id) || Withdraws(s, step, id)
  {
  }

  ghost predicate WithdrawnAt(steps: seq<Step>, id: nat, k: nat)
    requires k < |steps|
  {
    Withdraws(Run(EMPTY, steps[..k]), steps[k], id)
  }

  /** Over every run a token is revoked exactly when some revocation or rotation of it succeeded; a token that is only
      overdue is not. */
  lemma {:induction false} RevokedIff(steps: seq<Step>, id: nat)
    ensures IsRevokedIn(Run(EMPTY, steps), id) <==> exists k :: 0 <= k < |steps| && WithdrawnAt(steps, id, k)
  {
    if steps != [] {
      var n := |steps| - 1;
      RevokedIff(steps[..n], id);
      ChainsAlways(steps[..n]);
      RevokedStep(Run(EMPTY, steps[..n]), steps[n], id);
      forall k | 0 <= k < n ensures WithdrawnAt(steps, id, k) <==> WithdrawnAt(steps[..n], id, k) {
        assert steps[..n][..k] == steps[..k];
      }
      assert WithdrawnAt(steps, id, n) <==> Withdraws(Run(EMPTY, steps[..n]), steps[n], id);
    }
  }

  // ---------------------------------------------------------------- the commands

  class TokenStore {
    var tokens: map<nat, Token>
    var next: nat
    /** The rotation chains, which the database does not record. */
    ghost var root: map<nat, nat>
    ghost var chains: map<nat, Chain>

    /** The commands so far. */
    ghost var history: seq<Step>

    /** The store is what its commands made of an empty one. */
    ghost predicate Valid()
      reads this
    {
      Contents() == Run(EMPTY, history)
    }

    ghost function Contents(): Store
      reads this
    {
      Store(tokens, next, root, chains)
    }

    constructor ()
      ensures Valid() && Contents() == EMPTY && history == []
    {
      tokens, next, root, chains, history := map[], 1, map[], map[], [];
    }

    method Insert(t: Token, ghost chain: nat) returns (id: nat)
      modifies this
      ensures Contents() == Inserted(old(Contents()), t, chain) && id == old(next) && history == old(history)
    {
      id := next;
      tokens := tokens[next := t];
      root := root[next := chain];
      chains := chains[chain := Chain(t.owner, t.service, t.Lifetime(), next)];
      next := next + 1;
    }

    /** Enters a command in the history before it is carried out. */
    ghost method Record(step: Step)
      requires Valid()
      modifies this`history
      ensures history == old(history) + [step] && Run(EMPTY, history) == After(old(Contents()), step)
    {
      assert (history + [step])[..|history|] == history;
      history := history + [step];
    }

    method CreateToken(owner: string, expiresAt: int, service: bool, hash: int, now: int) returns (r: Reply)
      requires Valid()
      modifies this
      ensures Valid() && history == old(history) + [Create(owner, expiresAt, service, hash, now)]
      ensures r == ReplyTo(old(Contents()), Create(owner, expiresAt, service, hash, now))
      ensures r == if |owner| > 64 then OwnerTooLong else Issued(old(next))
      ensures Contents() == After(old(Contents()), Create(owner, expiresAt, service, hash, now))
    {
      Record(Create(owner, expiresAt, service, hash, now));
      if |owner| > MAX_OWNER_LEN {
        return OwnerTooLong;
      }
      var id := Insert(Token(owner, hash, now, expiresAt, Status.Valid, service, None), next);
      r := Issued(id);
    }

    method RevokeToken(id: nat, now: int) returns (r: Reply)
      requires Valid()
      modifies this
      ensures Valid() && history == old(history) + [Revoke(id, now)]
      ensures r == ReplyTo(old(Contents()), Revoke(id, now)) && Contents() == After(old(Contents()), Revoke(id, now))
      ensures r == Done <==> id in old(tokens) && old(tokens)[id].status.Valid? && now < old(tokens)[id].expiresAt
      ensures r == Done ==>
        tokens == old(tokens)[id := old(tokens)[id].(status := Revoked, invalidatedAt := Some(now))]
      ensures r != Done ==> tokens == old(tokens) && (r == NotFound || r == IsExpired || r == IsRevoked)
      ensures r == NotFound <==> id !in old(tokens)
      ensures r == IsRevoked <==> id in old(tokens) && old(tokens)[id].status.Revoked?
    {
      Record(Revoke(id, now));
      if id !in tokens {
        return NotFound;
      }
      if tokens[id].status.Expired? {
        return IsExpired;
      }
      if tokens[id].status.Revoked? {
        return IsRevoked;
      }
      if now >= tokens[id].expiresAt {
        return IsExpired;
      }
      tokens := tokens[id := tokens[id].(status := Revoked, invalidatedAt := Some(now))];
      r := Done;
    }

    /** Revokes a token and issues its successor; a failure of either undoes both. */
    method RotateToken(id: nat, hash: int, now: int, commits: bool) returns (r: Reply)
      requires Valid()
      modifies this
      ensures Valid() && history == old(history) + [Rotate(id, hash, now, commits)]
      ensures r == ReplyTo(old(Contents()), Rotate(id, hash, now, commits))
      ensures Contents() == After(old(Contents()), Rotate(id, hash, now, commits))
      ensures r.Issued? <==>
        commits && id in old(tokens) && old(tokens)[id].status.Valid? && now < old(tokens)[id].expiresAt
      ensures !r.Issued? ==> tokens == old(tokens)
    {
      ChainsAlways(history);
      Record(Rotate(id, hash, now, commits));
      if id !in tokens {
        return NotFound;
      }
      var token := tokens[id];
      if token.status.Expired? {
        return IsExpired;
      }
      if token.status.Revoked? {
        return IsRevoked;
      }
      if now >= token.expiresAt {
        return IsExpired;
      }
      var ttl := token.expiresAt - token.createdAt;
      var tokens0, next0 := tokens, next;
      ghost var root0, chains0 := root, chains;
      tokens := tokens[id := token.(status := Revoked, invalidatedAt := Some(now))];
      var newId := Insert(Token(token.owner, hash, now, now + ttl, Status.Valid, token.service, None), root[id]);
      if !commits {
        tokens, next, root, chains := tokens0, next0, root0, chains0;
        return RolledBack;
      }
      r := Issued(newId);
    }

    /** Expires an overdue token before it looks at the secret. */
    method AuthenticateToken(id: nat, candidate: int, now: int) returns (r: Reply)
      requires Valid()
      modifies this
      ensures Valid() && history == old(history) + [Authenticate(id, candidate, now)]
      ensures r == ReplyTo(old(Contents()), Authenticate(id, candidate, now))
      ensures Contents() == After(old(Contents()), Authenticate(id, candidate, now))
      ensures r.Granted? <==> id in old(tokens) && old(tokens)[id].status.Valid? && now < old(tokens)[id].expiresAt &&
                              old(tokens)[id].hash == candidate
    {
      Record(Authenticate(id, candidate, now));
      if id !in tokens {
        return NotFound;
      }
      var token := tokens[id];
      var newStatus := token.status;
      if newStatus.Valid? && now >= token.expiresAt {
        newStatus := Expired;
        tokens := tokens[id := token.(status := Expired, invalidatedAt := Some(now))];
      }
      match newStatus
      case Expired => r := IsExpired;
      case Revoked => r := IsRevoked;
      case Valid => r := if token.hash != candidate then Refused else Granted(token.expiresAt, token.service);
    }

    /** Unknown for a missing token, otherwise whether some revocation or rotation of it succeeded; a token that is
        only overdue is not revoked. */
    method IsTokenRevoked(id: nat) returns (r: Option<bool>)
      requires Valid()
      ensures r.None? <==> id !in tokens
      ensures r == Some(true) <==> exists k :: 0 <= k < |history| && WithdrawnAt(history, id, k)
    {
      RevokedIff(history, id);
      if id !in tokens {
        return None;
      }
      r := Some(tokens[id].status.Revoked?);
    }
  }
}
