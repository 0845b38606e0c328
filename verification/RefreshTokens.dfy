/**
 * Refresh-token rotation: a presented token is revoked and replaced by a child, and presenting a
 * revoked token revokes every token of its user (section 5.2.2.3 of RFC 6819).
 *
 * Models the token table of src/auth/sep10/sep10.service.ts. A token is named by its place in the
 * order of creation; different token texts have different hashes.
 */
module RefreshTokens {
  import opened EscrowTables

  type User = string

  datatype Token = Token(user: User, parent: Option<nat>, revoked: bool, expiresAt: Time)

  datatype Step = Login(user: User, expiresAt: Time) | Rotate(token: nat, now: Time, expiresAt: Time)

  datatype Reply = Issued(token: nat) | Invalid | Reused | Expired

  function RevokeUser(ts: seq<Token>, u: User): (r: seq<Token>)
    ensures |r| == |ts|
    ensures forall i :: 0 <= i < |ts| ==> r[i] == if ts[i].user == u then ts[i].(revoked := true) else ts[i]
  {
    seq(|ts|, i requires 0 <= i < |ts| => if ts[i].user == u then ts[i].(revoked := true) else ts[i])
  }

  /** The two writes of a rotation: revoke the presented token, create its child. */
  function Commit(ts: seq<Token>, t: nat, expiresAt: Time): seq<Token>
    requires t < |ts|
  {
    ts[t := ts[t].(revoked := true)] + [Token(ts[t].user, Some(t), false, expiresAt)]
  }

  function Next(ts: seq<Token>, s: Step): (seq<Token>, Reply) {
    match s
    case Login(u, expiresAt) => (ts + [Token(u, None, false, expiresAt)], Issued(|ts|))
    case Rotate(t, now, expiresAt) =>
      if t >= |ts| then (ts, Invalid)
      else if ts[t].revoked then (RevokeUser(ts, ts[t].user), Reused)
      else if now > ts[t].expiresAt then (ts, Expired)
      else (Commit(ts, t, expiresAt), Issued(|ts|))
  }

  function Run(steps: seq<Step>): seq<Token> {
    if steps == [] then [] else Next(Run(steps[..|steps| - 1]), steps[|steps| - 1]).0
  }

  // ── What one step does, column by column ──────────────────────────────────

  /** Exactly the tokens of one user are revoked, and nothing else of them or of others changes. */
  predicate RevokesUser(a: seq<Token>, b: seq<Token>, u: User) {
    && |b| == |a|
    && forall i :: 0 <= i < |a| ==>
         && (b[i].user, b[i].parent, b[i].expiresAt) == (a[i].user, a[i].parent, a[i].expiresAt)
         && (b[i].revoked <==> a[i].revoked || a[i].user == u)
  }

  /** A last token is added; the ones before it keep everything but, where they do so, `revoked`. */
  predicate Adds(a: seq<Token>, b: seq<Token>) {
    && |b| == |a| + 1
    && !b[|a|].revoked
    && forall i :: 0 <= i < |a| ==>
         (b[i].user, b[i].parent, b[i].expiresAt) == (a[i].user, a[i].parent, a[i].expiresAt)
  }

  /** Token `t` is revoked, no other one is, and a live child of it with the given expiry is added. */
  predicate Replaces(a: seq<Token>, b: seq<Token>, t: nat, expiresAt: Time)
    requires t < |a|
  {
    && Adds(a, b)
    && (forall i :: 0 <= i < |a| ==> (b[i].revoked <==> a[i].revoked || i == t))
    && b[|a|].user == a[t].user && b[|a|].parent == Some(t) && b[|a|].expiresAt == expiresAt
  }

  /** A login adds a live token without parent and revokes none. */
  predicate Starts(a: seq<Token>, b: seq<Token>, u: User, expiresAt: Time) {
    && Adds(a, b)
    && (forall i :: 0 <= i < |a| ==> (b[i].revoked <==> a[i].revoked))
    && b[|a|].user == u && b[|a|].parent.None? && b[|a|].expiresAt == expiresAt
  }

  /** Each reply, when it comes, and every column of every token it leaves. */
  lemma NextExactly(ts: seq<Token>, s: Step)
    ensures var (n, reply) := Next(ts, s);
            match s
            case Login(u, expiresAt) => reply == Issued(|ts|) && Starts(ts, n, u, expiresAt)
            case Rotate(t, now, expiresAt) =>
              && (reply.Invalid? <==> t >= |ts|)
              && (reply.Reused? <==> t < |ts| && ts[t].revoked)
              && (reply.Expired? <==> t < |ts| && !ts[t].revoked && ts[t].expiresAt < now)
              && (reply.Invalid? || reply.Expired? ==> n == ts)
              && (reply.Reused? ==> RevokesUser(ts, n, ts[t].user))
              && (reply.Issued? ==> Replaces(ts, n, t, expiresAt) && reply.token == |ts|)
  {}

  // ── Families are chains ───────────────────────────────────────────────────

  predicate ChildOf(ts: seq<Token>, c: nat, p: nat) { c < |ts| && ts[c].parent == Some(p) }

  predicate OneChild(ts: seq<Token>) {
    forall c, d, p | 0 <= c < |ts| && 0 <= d < |ts| && 0 <= p < |ts| ::
      ChildOf(ts, c, p) && ChildOf(ts, d, p) ==> c == d
  }

  /** A parent is older, belongs to the same user, is revoked, and has no other child. */
  predicate Chains(ts: seq<Token>) {
    && (forall c :: 0 <= c < |ts| && ts[c].parent.Some? ==>
          ts[c].parent.value < c && ts[ts[c].parent.value].revoked && ts[ts[c].parent.value].user == ts[c].user)
    && OneChild(ts)
  }

  predicate HasChild(ts: seq<Token>, p: nat) { exists c :: 0 <= c < |ts| && ChildOf(ts, c, p) }

  /** The writes of a rotation keep families chains exactly when the token has no child at that time. */
  lemma CommitKeepsExactly(ts: seq<Token>, t: nat, expiresAt: Time)
    requires Chains(ts) && t < |ts|
    ensures Chains(Commit(ts, t, expiresAt)) <==> !HasChild(ts, t)
    ensures !ts[t].revoked ==> !HasChild(ts, t)
  {
    var n := Commit(ts, t, expiresAt);
    assert ChildOf(n, |ts|, t);
    forall c, p | 0 <= c < |ts| ensures ChildOf(n, c, p) <==> ChildOf(ts, c, p) {}
    if HasChild(ts, t) {
      var c :| 0 <= c < |ts| && ChildOf(ts, c, t);
      assert ChildOf(n, c, t) && c != |ts|;
    }
  }

  lemma NextKeepsChains(ts: seq<Token>, s: Step)
    requires Chains(ts)
    ensures Chains(Next(ts, s).0)
  {
    if s.Rotate? && s.token < |ts| && !ts[s.token].revoked && s.now <= ts[s.token].expiresAt {
      CommitKeepsExactly(ts, s.token, s.expiresAt);
    } else {
      var n := Next(ts, s).0;
      forall c, p | 0 <= c < |n| && 0 <= p < |n| ensures ChildOf(n, c, p) <==> ChildOf(ts, c, p) {}
    }
  }

  /** How many tokens of a user are not revoked. */
  function Live(ts: seq<Token>, u: User): nat {
    if ts == [] then 0
    else Live(ts[..|ts| - 1], u) + if ts[|ts| - 1].user == u && !ts[|ts| - 1].revoked then 1 else 0
  }

  lemma LiveSnoc(ts: seq<Token>, x: Token, u: User)
    ensures Live(ts + [x], u) == Live(ts, u) + if x.user == u && !x.revoked then 1 else 0
  {
    assert (ts + [x])[..|ts|] == ts;
  }

  lemma NoLive(u: User)
    ensures Live([], u) == 0
  {}

  lemma LiveOfTwo(used: Token, child: Token)
    requires used.revoked && !child.revoked
    ensures Live([used, child, child], child.user) == 2
  {
    hide Live;
    var u := child.user;
    assert Live([], u) == 0 by { NoLive(u); }
    LiveSnoc([], used, u);
    LiveSnoc([used], child, u);
    LiveSnoc([used, child], child, u);
    assert [] + [used] == [used] && [used] + [child] == [used, child];
    assert [used, child] + [child] == [used, child, child];
  }

  /**
   * Two rotations of one token that both read it before either writes fork its family: one login then
   * has two live tokens.
   */
  lemma RacingRotationsFork(u: User, e: Time)
    ensures var ts := Run([Login(u, e)]);
            && |ts| == 1 && !ts[0].revoked
            && var raced := Commit(Commit(ts, 0, e), 0, e);
               && !Chains(raced) && Live(raced, u) == 2
  {
    hide Live;
    var ts := [Token(u, None, false, e)];
    assert Run([Login(u, e)]) == ts by { assert [Login(u, e)][..0] == []; }
    var raced := Commit(Commit(ts, 0, e), 0, e);
    var child := Token(u, Some(0), false, e);
    assert raced == [Token(u, None, true, e), child, child];
    assert ChildOf(raced, 1, 0) && ChildOf(raced, 2, 0);
    LiveOfTwo(Token(u, None, true, e), child);
  }

  function Root(ts: seq<Token>, i: nat): nat
    requires Chains(ts) && i < |ts|
    decreases i
  {
    if ts[i].parent.None? then i else Root(ts, ts[i].parent.value)
  }

  /** `a` is a proper ancestor of `i`. */
  predicate Above(ts: seq<Token>, a: nat, i: nat)
    requires Chains(ts) && i < |ts|
    decreases i
  {
    ts[i].parent.Some? && (ts[i].parent.value == a || Above(ts, a, ts[i].parent.value))
  }

  lemma {:induction false} RootIsAbove(ts: seq<Token>, i: nat)
    requires Chains(ts) && i < |ts|
    ensures Root(ts, i) <= i && (Root(ts, i) == i <==> ts[i].parent.None?)
    decreases i
  {
    if ts[i].parent.Some? { RootIsAbove(ts, ts[i].parent.value); }
  }

  /** The way down from an ancestor starts with one of its children. */
  lemma {:induction false} ChildBetween(ts: seq<Token>, a: nat, i: nat) returns (c: nat)
    requires Chains(ts) && i < |ts| && Above(ts, a, i)
    ensures a < c <= i && ChildOf(ts, c, a)
    decreases i
  {
    if ts[i].parent.value == a { c := i; } else { c := ChildBetween(ts, a, ts[i].parent.value); }
  }

  /** Two tokens of one family lie on one line of descent. */
  lemma {:induction false} FamilyIsAChain(ts: seq<Token>, i: nat, j: nat)
    requires Chains(ts) && i < j < |ts| && Root(ts, i) == Root(ts, j)
    ensures Above(ts, i, j)
    decreases j
  {
    RootIsAbove(ts, i);
    RootIsAbove(ts, j);
    var p := ts[j].parent.value;
    if p < i {
      FamilyIsAChain(ts, p, i);
      var c := ChildBetween(ts, p, i);
      assert ChildOf(ts, j, p);
    } else if i < p {
      FamilyIsAChain(ts, i, p);
    }
  }

  /** A family has at most one live token, and it is the end of the chain. */
  lemma OneLivePerFamily(ts: seq<Token>, i: nat, j: nat)
    requires Chains(ts) && i < |ts| && j < |ts| && Root(ts, i) == Root(ts, j) && !ts[i].revoked
    ensures j <= i && (j < i ==> ts[j].revoked)
  {
    if i < j {
      FamilyIsAChain(ts, i, j);
      var c := ChildBetween(ts, i, j);
      assert false;
    }
    if j < i {
      FamilyIsAChain(ts, j, i);
      var c := ChildBetween(ts, j, i);
    }
  }

  // ── Live tokens against logins ────────────────────────────────────────────

  /** Logins of a user since a revoked token of that user was last presented. */
  function LoginsSinceReuse(steps: seq<Step>, u: User): nat {
    if steps == [] then 0
    else
      var init, s := steps[..|steps| - 1], steps[|steps| - 1];
      var before := LoginsSinceReuse(init, u);
      if s.Login? then before + (if s.user == u then 1 else 0)
      else
        var ts := Run(init);
        if s.token < |ts| && ts[s.token].revoked && ts[s.token].user == u then 0 else before
  }

  lemma {:induction false} LiveAfterRevoke(ts: seq<Token>, u: User, v: User)
    ensures Live(RevokeUser(ts, v), u) == if u == v then 0 else Live(ts, u)
  {
    if ts != [] {
      var n := |ts| - 1;
      assert RevokeUser(ts, v)[..n] == RevokeUser(ts[..n], v);
      LiveAfterRevoke(ts[..n], u, v);
    }
  }

  lemma {:induction false} LiveAfterOne(ts: seq<Token>, t: nat, u: User)
    requires t < |ts| && !ts[t].revoked
    ensures Live(ts[t := ts[t].(revoked := true)], u) == Live(ts, u) - if ts[t].user == u then 1 else 0
    decreases |ts|
  {
    var n := |ts| - 1;
    var next := ts[t := ts[t].(revoked := true)];
    if t < n {
      assert next[..n] == ts[..n][t := ts[t].(revoked := true)];
      LiveAfterOne(ts[..n], t, u);
    } else {
      assert next[..n] == ts[..n];
    }
  }

  /**
   * Over every run: families stay chains, and a user's live tokens never outnumber that user's logins
   * since a revoked token was last presented.
   */
  lemma {:induction false} RotationOverRuns(steps: seq<Step>, u: User)
    ensures Chains(Run(steps)) && Live(Run(steps), u) <= LoginsSinceReuse(steps, u)
    decreases |steps|
  {
    if steps != [] {
      var init, s := steps[..|steps| - 1], steps[|steps| - 1];
      var ts := Run(init);
      RotationOverRuns(init, u);
      NextKeepsChains(ts, s);
      match s
      case Login(v, e) => LiveSnoc(ts, Token(v, None, false, e), u);
      case Rotate(t, now, e) =>
        if t < |ts| {
          if ts[t].revoked {
            LiveAfterRevoke(ts, u, ts[t].user);
          } else {
            LiveAfterOne(ts, t, u);
            LiveSnoc(ts[t := ts[t].(revoked := true)], Token(ts[t].user, Some(t), false, e), u);
          }
        }
    }
  }

  lemma {:induction false} NoneLive(ts: seq<Token>, u: User, k: nat)
    requires Live(ts, u) == 0 && k < |ts| && ts[k].user == u
    ensures ts[k].revoked
    decreases |ts|
  {
    if k < |ts| - 1 { NoneLive(ts[..|ts| - 1], u, k); }
  }

  lemma {:induction false} NoLoginsAfter(steps: seq<Step>, after: seq<Step>, t: nat, now: Time, e: Time)
    requires t < |Run(steps)| && Run(steps)[t].revoked
    requires forall i :: 0 <= i < |after| ==> after[i].Login? ==> after[i].user != Run(steps)[t].user
    ensures LoginsSinceReuse(steps + [Rotate(t, now, e)] + after, Run(steps)[t].user) == 0
    decreases |after|
  {
    var all := steps + [Rotate(t, now, e)] + after;
    if after == [] {
      assert all[..|all| - 1] == steps && all[|all| - 1] == Rotate(t, now, e);
    } else {
      var m := |after| - 1;
      assert all[..|all| - 1] == steps + [Rotate(t, now, e)] + after[..m] && all[|all| - 1] == after[m];
      NoLoginsAfter(steps, after[..m], t, now, e);
    }
  }

  /** After reuse is detected, no token of that user can be rotated before the user logs in again. */
  lemma ReuseEndsEverySession(steps: seq<Step>, after: seq<Step>, t: nat, now: Time, e: Time)
    requires t < |Run(steps)| && Next(Run(steps), Rotate(t, now, e)).1.Reused?
    requires forall i :: 0 <= i < |after| ==> after[i].Login? ==> after[i].user != Run(steps)[t].user
    ensures var all, u := steps + [Rotate(t, now, e)] + after, Run(steps)[t].user;
            && Live(Run(all), u) == 0
            && forall k :: 0 <= k < |Run(all)| && Run(all)[k].user == u ==> Run(all)[k].revoked
  {
    var u := Run(steps)[t].user;
    var all := steps + [Rotate(t, now, e)] + after;
    NoLoginsAfter(steps, after, t, now, e);
    RotationOverRuns(all, u);
    forall k | 0 <= k < |Run(all)| && Run(all)[k].user == u ensures Run(all)[k].revoked { NoneLive(Run(all), u, k); }
  }

  /** A token that starts a family, or is the first child of a revoked one. */
  lemma IssueKeepsChains(ts: seq<Token>, x: Token)
    requires Chains(ts)
    requires x.parent.Some? ==> x.parent.value < |ts| && ts[x.parent.value].revoked
                                && ts[x.parent.value].user == x.user && !HasChild(ts, x.parent.value)
    ensures Chains(ts + [x]) && !HasChild(ts + [x], |ts|)
  {
    var n := ts + [x];
    forall c, p | 0 <= c < |ts| ensures ChildOf(n, c, p) <==> ChildOf(ts, c, p) {}
    forall c | 0 <= c < |ts| && x.parent.Some? ensures !ChildOf(ts, c, x.parent.value) {}
  }

  lemma RevokeKeepsChains(ts: seq<Token>, t: nat)
    requires Chains(ts) && t < |ts|
    ensures var n := ts[t := ts[t].(revoked := true)]; Chains(n) && (HasChild(n, t) <==> HasChild(ts, t))
  {
    var n := ts[t := ts[t].(revoked := true)];
    forall c, p | 0 <= c < |ts| ensures ChildOf(n, c, p) <==> ChildOf(ts, c, p) {}
  }

  // ── The service ───────────────────────────────────────────────────────────

  class Sep10Service {
    var tokens: seq<Token>

    constructor ()
      ensures tokens == Run([])
    {
      tokens := [];
    }

    /**
     * Issues a token after a login, or as the only child of a revoked token: families stay chains, the
     * new token is live and last of its own, and the user has one live token more.
     */
    method GenerateAuthTokens(user: User, parent: Option<nat>, expiresAt: Time) returns (token: nat)
      requires Chains(tokens)
      requires parent.Some? ==> parent.value < |tokens| && tokens[parent.value].revoked
                                && tokens[parent.value].user == user && !HasChild(tokens, parent.value)
      modifies this
      ensures Chains(tokens)
      ensures token == |old(tokens)| && |tokens| == token + 1 && tokens[..token] == old(tokens)
      ensures tokens[token] == Token(user, parent, false, expiresAt) && !HasChild(tokens, token)
      ensures forall u :: Live(tokens, u) == Live(old(tokens), u) + if u == user then 1 else 0
    {
      token := |tokens|;
      ghost var issued := Token(user, parent, false, expiresAt);
      IssueKeepsChains(tokens, issued);
      forall u ensures Live(tokens + [issued], u) == Live(tokens, u) + if u == user then 1 else 0 {
        LiveSnoc(tokens, issued, u);
      }
      tokens := tokens + [Token(user, parent, false, expiresAt)];
    }

    /** Every token of the owner is revoked; an unknown token revokes nothing. */
    method RevokeTokenFamily(token: nat)
      modifies this
      ensures tokens == if token < |old(tokens)| then RevokeUser(old(tokens), old(tokens)[token].user) else old(tokens)
    {
      if token >= |tokens| { return; }
      var before, user := tokens, tokens[token].user;
      for i := 0 to |before|
        invariant |tokens| == |before|
        invariant forall k :: 0 <= k < |before| ==>
                    tokens[k] == if k < i && before[k].user == user then before[k].(revoked := true) else before[k]
      {
        if tokens[i].user == user { tokens := tokens[i := tokens[i].(revoked := true)]; }
      }
      assert tokens == RevokeUser(before, user);
    }

    /**
     * An unknown token is refused; a revoked one ends every session of its user; one past its expiry is
     * refused and left alone; any other is revoked and followed by its child.
     */
    method RotateRefreshToken(token: nat, now: Time, expiresAt: Time) returns (reply: Reply)
      requires Chains(tokens)
      modifies this
      ensures (tokens, reply) == Next(old(tokens), Rotate(token, now, expiresAt))
      ensures Chains(tokens)
      ensures reply.Invalid? <==> token >= |old(tokens)|
      ensures reply.Reused? <==> token < |old(tokens)| && old(tokens)[token].revoked
      ensures reply.Expired? <==>
                token < |old(tokens)| && !old(tokens)[token].revoked && old(tokens)[token].expiresAt < now
      ensures reply.Invalid? || reply.Expired? ==> tokens == old(tokens)
      ensures reply.Reused? ==> RevokesUser(old(tokens), tokens, old(tokens)[token].user)
      ensures reply.Issued? ==> Replaces(old(tokens), tokens, token, expiresAt) && reply.token == |tokens| - 1
    {
      NextKeepsChains(tokens, Rotate(token, now, expiresAt));
      if token >= |tokens| { return Invalid; }
      if tokens[token].revoked {
        RevokeTokenFamily(token);
        return Reused;
      }
      if now > tokens[token].expiresAt { return Expired; }
      CommitKeepsExactly(tokens, token, expiresAt);
      RevokeKeepsChains(tokens, token);
      tokens := tokens[token := tokens[token].(revoked := true)];
      var child := GenerateAuthTokens(tokens[token].user, Some(token), expiresAt);
      assert tokens == tokens[..child] + [tokens[child]];
      return Issued(child);
    }
  }
}
