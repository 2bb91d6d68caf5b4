/**
  The session store: a table from token to the user it authenticates and the
  instant it stops doing so. Expiry is lazy: an expired record stays in the
  table until a validation of that exact token notices it and removes it.

  The clock is an explicit `now` (seconds); the random generator is the pair
  of 64-bit draws a caller passes in.
*/
module Sessions {

  import opened Wrappers
  import opened Hex

  /** A C++ `int`. */
  newtype int32 = x: int | -0x8000_0000 <= x < 0x8000_0000

  /** Lifetime of a session: one hour, in seconds. */
  const Ttl: int := 3600

  /** One record of the table. */
  datatype SessionData = SessionData(userId: int32, expiry: int)

  /** The table itself; being a map, it holds at most one record per token. */
  type Store = map<string, SessionData>

  /**
    The token for two 64-bit draws: each rendered as sixteen zero-padded
    lower-case hex digits, the first draw first. Each half decodes back to
    its draw.
  */
  function GenerateToken(part1: uint64, part2: uint64): (token: string)
    ensures |token| == 32 && IsHexString(token)
    ensures ParseHex(token[..16]) == part1 as nat && ParseHex(token[16..]) == part2 as nat
  {
    var hi, lo := Hex16(part1), Hex16(part2);
    assert (hi + lo)[..16] == hi && (hi + lo)[16..] == lo;
    hi + lo
  }

  /** Different draws give different tokens. */
  lemma GenerateTokenInjective(a: uint64, b: uint64, c: uint64, d: uint64)
    requires GenerateToken(a, b) == GenerateToken(c, d)
    ensures a == c && b == d
  {
  }

  // The three operations on the table, as functions of the old table.

  /** `createSession`: store the user under token until one hour after now, overwriting any record there. */
  function Create(m: Store, token: string, userId: int32, now: int): (m': Store)
    ensures m'.Keys == m.Keys + {token}
    ensures m'[token] == SessionData(userId, now + Ttl)
    ensures forall t :: t in m && t != token ==> m'[t] == m[t]
  {
    m[token := SessionData(userId, now + Ttl)]
  }

  /** token names a record that has not yet expired at now. */
  predicate IsLive(m: Store, token: string, now: int)
  {
    token in m && now < m[token].expiry
  }

  /**
    `validateSession`: the user of a live record and the table unchanged;
    none otherwise, with the record removed when it is present but expired.
  */
  function Validate(m: Store, token: string, now: int): (r: (Option<int32>, Store))
    ensures r.0.Some? <==> IsLive(m, token, now)
    ensures r.0.Some? ==> r.0.value == m[token].userId
    ensures r.1.Keys == if token in m && !IsLive(m, token, now) then m.Keys - {token} else m.Keys
    ensures forall t :: t in r.1 ==> r.1[t] == m[t]
  {
    if token in m then
      if now < m[token].expiry then (Some(m[token].userId), m) else (None, m - {token})
    else
      (None, m)
  }

  /** `invalidateSession`: the table without token, whether or not it was there. */
  function Invalidate(m: Store, token: string): (m': Store)
    ensures m'.Keys == m.Keys - {token}
    ensures forall t :: t in m' ==> m'[t] == m[t]
  {
    m - {token}
  }

  /** A token never stored validates to none and changes nothing. */
  lemma ValidateAbsent(m: Store, token: string, now: int)
    requires token !in m
    ensures Validate(m, token, now) == (None, m)
  {
  }

  /**
    A session validates to its user at any time before one hour after its
    creation (in particular right after it), and to none from then on.
  */
  lemma ValidateCreated(m: Store, token: string, userId: int32, created: int, now: int)
    ensures Validate(Create(m, token, userId, created), token, now).0 ==
            if now < created + Ttl then Some(userId) else None
  {
  }

  /**
    No resurrection: once validation has answered none for a token, the
    token is gone, and a later validation answers none whatever the clock
    says, even an earlier time.
  */
  lemma NoResurrection(m: Store, token: string, now: int, later: int)
    requires Validate(m, token, now).0.None?
    ensures token !in Validate(m, token, now).1
    ensures Validate(Validate(m, token, now).1, token, later) == (None, Validate(m, token, now).1)
  {
  }

  /** Invalidation is idempotent and leaves nothing to validate. */
  lemma InvalidateThenValidate(m: Store, token: string, now: int)
    ensures Invalidate(Invalidate(m, token), token) == Invalidate(m, token)
    ensures Validate(Invalidate(m, token), token, now).0.None?
  {
  }

  // Histories of operations.

  /** One call to the store, with the clock reading or the draws it uses. */
  datatype Op =
    | CreateOp(userId: int32, now: int, part1: uint64, part2: uint64)
    | ValidateOp(token: string, now: int)
    | InvalidateOp(token: string)

  function Apply(m: Store, op: Op): Store
  {
    match op
    case CreateOp(u, now, p1, p2) => Create(m, GenerateToken(p1, p2), u, now)
    case ValidateOp(t, now) => Validate(m, t, now).1
    case InvalidateOp(t) => Invalidate(m, t)
  }

  /** The table after a sequence of calls, in order. */
  function Run(m: Store, ops: seq<Op>): Store
    decreases |ops|
  {
    if ops == [] then m else Run(Apply(m, ops[0]), ops[1..])
  }

  predicate Creates(op: Op, token: string)
  {
    op.CreateOp? && GenerateToken(op.part1, op.part2) == token
  }

  /**
    A token absent from the table stays absent through any history in which
    no creation draws that same token: validations and invalidations never
    bring a record back.
  */
  lemma {:induction false} StaysAbsent(m: Store, ops: seq<Op>, token: string)
    requires token !in m
    requires forall i :: 0 <= i < |ops| ==> !Creates(ops[i], token)
    ensures token !in Run(m, ops)
    decreases |ops|
  {
    if ops != [] {
      assert !Creates(ops[0], token);
      StaysAbsent(Apply(m, ops[0]), ops[1..], token);
    }
  }

  /** Every record expires at most one hour after the clock reading t. */
  predicate ExpiresBy(m: Store, t: int)
  {
    forall token :: token in m ==> m[token].expiry <= t + Ttl
  }

  /** op, if it is a creation, reads the clock at or before t. */
  predicate CreatesBy(op: Op, t: int)
  {
    op.CreateOp? ==> op.now <= t
  }

  /**
    If no creation in a history reads the clock past t, no record in the
    table afterwards outlives t by more than one hour, whatever clock the
    validations read.
  */
  lemma {:induction false} RunExpiresBy(m: Store, ops: seq<Op>, t: int)
    requires ExpiresBy(m, t)
    requires forall i :: 0 <= i < |ops| ==> CreatesBy(ops[i], t)
    ensures ExpiresBy(Run(m, ops), t)
    decreases |ops|
  {
    if ops != [] {
      assert CreatesBy(ops[0], t);
      RunExpiresBy(Apply(m, ops[0]), ops[1..], t);
    }
  }

  /**
    Sessions are time-bounded: starting from an empty table, one hour after
    the latest creation of any history, no token validates.
  */
  lemma AllExpire(ops: seq<Op>, t: int, token: string, now: int)
    requires forall i :: 0 <= i < |ops| ==> CreatesBy(ops[i], t)
    requires now >= t + Ttl
    ensures Validate(Run(map[], ops), token, now).0.None?
  {
    RunExpiresBy(map[], ops, t);
  }

  /** The session table (`SessionManager`), passed explicitly to the handlers. */
  class SessionManager {

    var sessions: Store

    constructor ()
      ensures sessions == map[]
    {
      sessions := map[];
    }

    /**
      Generates a token from the two draws, stores the user under it until one
      hour after now and returns it; a record already under that token is
      replaced.
    */
    method CreateSession(userId: int32, now: int, part1: uint64, part2: uint64) returns (token: string)
      modifies this
      ensures token == GenerateToken(part1, part2)
      ensures sessions == Create(old(sessions), token, userId, now)
    {
      token := GenerateToken(part1, part2);
      var expiry := now + Ttl;
      sessions := sessions[token := SessionData(userId, expiry)];
    }

    /** The user of a live session, or none; an expired record found here is erased. */
    method ValidateSession(token: string, now: int) returns (userId: Option<int32>)
      modifies this
      ensures (userId, sessions) == Validate(old(sessions), token, now)
    {
      if token in sessions {
        var data := sessions[token];
        if now < data.expiry {
          return Some(data.userId);
        }
        sessions := sessions - {token};
      }
      return None;
    }

    /** Erases the record under token, if any. */
    method InvalidateSession(token: string)
      modifies this
      ensures sessions == Invalidate(old(sessions), token)
    {
      sessions := sessions - {token};
    }
  }
}
