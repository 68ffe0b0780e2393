/** API tokens and the one specification both stores are measured against: a set of issued
    tokens, of which some are revoked and some have expired
    (internal/auth/token-store.go, auth-manager.go). Times are ticks of one clock. */
module Tokens {
  import opened Semver

  /** `None` stands for the zero time: no expiry, or not revoked. */
  datatype Token = Token(id: string, name: string, hash: string, createdAt: int, expiresAt: Option<int>, revokedAt: Option<int>)

  predicate IsRevoked(t: Token)
  {
    t.revokedAt.Some?
  }

  predicate IsExpired(t: Token, now: int)
  {
    t.expiresAt.Some? && t.expiresAt.value < now
  }

  predicate IsValid(t: Token, now: int)
  {
    !IsRevoked(t) && !IsExpired(t, now)
  }

  /** Equal up to the time of revocation. */
  predicate SameToken(a: Token, b: Token)
  {
    a.(revokedAt := b.revokedAt) == b
  }

  /** A token as `CreateToken` makes it (auth-manager.go:67-110): identifier and hash are new among
      all tokens ever issued, it is not revoked, and it expires, if at all, in the future. */
  predicate IsFresh(ever: map<string, Token>, now: int, t: Token)
  {
    && t.id !in ever
    && (forall id :: id in ever ==> ever[id].hash != t.hash)
    && t.revokedAt.None?
    && (t.expiresAt.Some? ==> t.expiresAt.value > now)
  }

  /** The specification: the tokens issued and not deleted, by identifier. */
  type Issued = map<string, Token>

  function Revoked(s: Issued, id: string, now: int): Issued
  {
    if id in s then s[id := s[id].(revokedAt := Some(now))] else s
  }

  /** Authentication: some issued token has this hash and is valid now. */
  predicate Accepts(s: Issued, hash: string, now: int)
  {
    exists id :: id in s && s[id].hash == hash && IsValid(s[id], now)
  }

  /** Two sets of tokens hold the same unexpired tokens, equally revoked. */
  ghost predicate Agree(a: Issued, b: Issued, now: int)
  {
    forall id ::
      && (id in a && !IsExpired(a[id], now) <==> id in b && !IsExpired(b[id], now))
      && (id in a && !IsExpired(a[id], now) ==> SameToken(a[id], b[id]) && (IsRevoked(a[id]) <==> IsRevoked(b[id])))
  }

  /** Agreement now is indistinguishability now and at any later time. */
  lemma AgreeAccepts(a: Issued, b: Issued, now: int, hash: string, later: int)
    requires Agree(a, b, now) && later >= now
    ensures Accepts(a, hash, later) == Accepts(b, hash, later)
  {
    forall id
      ensures id in a && a[id].hash == hash && IsValid(a[id], later) <==> id in b && b[id].hash == hash && IsValid(b[id], later)
    {
      assert id in a && !IsExpired(a[id], now) <==> id in b && !IsExpired(b[id], now);
    }
  }

  lemma AgreeLater(a: Issued, b: Issued, now: int, later: int)
    requires Agree(a, b, now) && later >= now
    ensures Agree(a, b, later)
  {
    forall id
      ensures id in a && !IsExpired(a[id], later) <==> id in b && !IsExpired(b[id], later)
      ensures id in a && !IsExpired(a[id], later) ==> SameToken(a[id], b[id]) && (IsRevoked(a[id]) <==> IsRevoked(b[id]))
    {
      assert id in a && !IsExpired(a[id], now) <==> id in b && !IsExpired(b[id], now);
    }
  }

  lemma AgreeTransitive(a: Issued, b: Issued, c: Issued, now: int)
    requires Agree(a, b, now) && Agree(b, c, now)
    ensures Agree(a, c, now)
  {
    forall id
      ensures id in a && !IsExpired(a[id], now) <==> id in c && !IsExpired(c[id], now)
      ensures id in a && !IsExpired(a[id], now) ==> SameToken(a[id], c[id]) && (IsRevoked(a[id]) <==> IsRevoked(c[id]))
    {
      assert id in a && !IsExpired(a[id], now) <==> id in b && !IsExpired(b[id], now);
      assert id in b && !IsExpired(b[id], now) <==> id in c && !IsExpired(c[id], now);
    }
  }
}
