/** misc_scripts/redact.py: `redact`, which replaces the user name, id and IP address of a
    classification row by a pseudonym. Each user (a registered user by id, an anonymous one
    by IP address) is given a 6-digit pseudonym the first time it is seen, remembered in
    the map `redact.identities`, so that all its rows get the same pseudonym and no two
    users share one. */
module Redact {
  import opened Wrappers
  import opened Strs

  datatype Error =
    | TooManyCollisions
    | UnknownPrefix(prefix: string)

  /** The three columns of a row that `redact` reads: `user_id` is absent (NaN) for
      anonymous classifications. */
  datatype Row = Row(userName: string, userId: Option<string>, userIp: string)

  const NamePrefix := "name:"
  const AnonPrefix := "anon:"
  /** How many candidates `random_name` tries before it gives up. */
  const Attempts := 10

  /** A candidate pseudonym as `random_name` draws it: six decimal digits. */
  predicate IsPseudonym(p: string)
  {
    |p| == 6 && AllDigits(p)
  }

  /** The random draws, supplied in advance: at least as many as `random_name` can use,
      each of the drawn shape. */
  predicate DrawsOk(draws: seq<string>)
  {
    |draws| >= Attempts && forall i | 0 <= i < |draws| :: IsPseudonym(draws[i])
  }

  /** The shape of every stored user name: a prefix and a pseudonym. */
  predicate IsUserName(n: string)
  {
    |n| == 11 && (n[..5] == NamePrefix || n[..5] == AnonPrefix) && IsPseudonym(n[5..])
  }

  /** What the map keeps: every user name well formed and no user name given twice. */
  predicate ValidMap(ids: map<string, string>)
  {
    && (forall u | u in ids :: IsUserName(ids[u]))
    && (forall u, v | u in ids && v in ids && u != v :: ids[u] != ids[v])
  }

  /** `m` extends `ids`: nothing stored is changed or removed. */
  predicate Extends(m: map<string, string>, ids: map<string, string>)
  {
    forall u | u in ids :: u in m && m[u] == ids[u]
  }

  /** The key under which a row's user is stored and the prefix a new user gets. */
  function UidOf(row: Row): (string, string)
  {
    match row.userId
    case None => (row.userIp, AnonPrefix)
    case Some(id) => (id, NamePrefix)
  }

  /** `user_name[:5]` and `user_name[5:]`. */
  function Head(s: string): string { if |s| < 5 then s else s[..5] }
  function Tail(s: string): string { if |s| < 5 then "" else s[5..] }

  /** `random_name` from the `failcount`-th draw on: the first candidate whose prefixed
      form is not already a stored user name. */
  function FreshName(names: set<string>, prefix: string, draws: seq<string>, failcount: nat): (r: Result<string, Error>)
    requires failcount <= Attempts <= |draws|
    ensures r.Ok? ==> exists i | failcount <= i < Attempts :: r.value == draws[i]
    ensures r.Ok? ==> prefix + r.value !in names
    ensures r.Err? <==> forall i | failcount <= i < Attempts :: prefix + draws[i] in names
    ensures r.Err? ==> r == Err(TooManyCollisions)
    decreases Attempts - failcount
  {
    if failcount == Attempts then Err(TooManyCollisions)
    else if prefix + draws[failcount] in names then FreshName(names, prefix, draws, failcount + 1)
    else Ok(draws[failcount])
  }

  /** The new user-name, user-id and user-ip cells for a user name and its prefix. */
  function Cells(prefix: string, userName: string, pseudonym: string): Result<seq<string>, Error>
  {
    if prefix == NamePrefix then Ok([userName, pseudonym, ""])
    else if prefix == AnonPrefix then Ok([userName, "", pseudonym])
    else Err(UnknownPrefix(prefix))
  }

  /** One call of `redact`: the new cells and the map afterwards. */
  function RedactSpec(ids: map<string, string>, row: Row, draws: seq<string>): (Result<seq<string>, Error>, map<string, string>)
    requires |draws| >= Attempts
  {
    var (uid, prefix) := UidOf(row);
    if uid in ids then
      var userName := ids[uid];
      (Cells(Head(userName), userName, Tail(userName)), ids)
    else
      match FreshName(ids.Values, prefix, draws, 0)
      case Err(e) => (Err(e), ids)
      case Ok(pseudonym) =>
        var userName := prefix + pseudonym;
        (Cells(prefix, userName, pseudonym), ids[uid := userName])
  }

  /** The pseudonymiser of one run of the script: `redact.identities`. */
  class Pseudonymiser {
    var identities: map<string, string>

    ghost predicate Valid()
      reads this
    {
      ValidMap(identities)
    }

    /** `redact.identities = dict()`. */
    constructor()
      ensures identities == map[] && Valid()
    {
      identities := map[];
    }

    /** `random_name`: up to ten draws, each tried against the stored user names. */
    method RandomName(prefix: string, draws: seq<string>) returns (r: Result<string, Error>)
      requires |draws| >= Attempts
      ensures r == FreshName(identities.Values, prefix, draws, 0)
    {
      var failcount := 0;
      while failcount < Attempts
        invariant 0 <= failcount <= Attempts
        invariant FreshName(identities.Values, prefix, draws, failcount) == FreshName(identities.Values, prefix, draws, 0)
      {
        var rnd := draws[failcount];
        if prefix + rnd in identities.Values {
          failcount := failcount + 1;
        } else {
          return Ok(rnd);
        }
      }
      return Err(TooManyCollisions);
    }

    /** `redact`: the replacement cells for the row, remembering a new user. */
    method Redact(row: Row, draws: seq<string>) returns (r: Result<seq<string>, Error>)
      requires Valid() && DrawsOk(draws)
      modifies this
      ensures Valid()
      ensures (r, identities) == RedactSpec(old(identities), row, draws)
    {
      var uid, prefix := UidOf(row).0, UidOf(row).1;
      var userName, pseudonym;
      if uid in identities {
        userName := identities[uid];
        prefix := Head(userName);
        pseudonym := Tail(userName);
      } else {
        var rn := RandomName(prefix, draws);
        if rn.Err? {
          return Err(rn.error);
        }
        pseudonym := rn.value;
        identities := identities[uid := prefix + pseudonym];
        userName := identities[uid];
      }
      RedactKeepsValid(old(identities), row, draws);
      if prefix == NamePrefix {
        r := Ok([userName, pseudonym, ""]);
      } else if prefix == AnonPrefix {
        r := Ok([userName, "", pseudonym]);
      } else {
        r := Err(UnknownPrefix(prefix));
      }
    }
  }

  // ----- properties -----

  /** A user already stored gets back its stored user name and pseudonym, and the map is
      left as it was. */
  lemma KnownUserStable(ids: map<string, string>, row: Row, draws: seq<string>)
    requires ValidMap(ids) && |draws| >= Attempts && UidOf(row).0 in ids
    ensures var (r, m) := RedactSpec(ids, row, draws);
      var n := ids[UidOf(row).0];
      && m == ids
      && (n[..5] == NamePrefix ==> r == Ok([n, n[5..], ""]))
      && (n[..5] == AnonPrefix ==> r == Ok([n, "", n[5..]]))
  {
  }

  /** Two rows of the same user get the same cells: the second call finds what the first
      stored and changes nothing. */
  lemma SameUserSameCells(ids: map<string, string>, first: Row, second: Row, d1: seq<string>, d2: seq<string>)
    requires ValidMap(ids) && DrawsOk(d1) && DrawsOk(d2)
    requires UidOf(first).0 == UidOf(second).0 && RedactSpec(ids, first, d1).0.Ok?
    ensures var (r, m) := RedactSpec(ids, first, d1);
      RedactSpec(m, second, d2) == (r, m)
  {
    var (uid, prefix) := UidOf(first);
    if uid !in ids {
      var p := FreshName(ids.Values, prefix, d1, 0).value;
      assert Head(prefix + p) == prefix && Tail(prefix + p) == p;
    }
  }

  /** A new user is keyed by its id with prefix `name:`, or by its IP address with prefix
      `anon:` when it has no id; named users get their pseudonym in the id column,
      anonymous ones in the IP column. */
  lemma NewUserKeyed(ids: map<string, string>, row: Row, draws: seq<string>)
    requires |draws| >= Attempts
    requires UidOf(row).0 !in ids && RedactSpec(ids, row, draws).0.Ok?
    ensures var (r, m) := RedactSpec(ids, row, draws);
      var p := r.value[0][5..];
      && (row.userId.Some? ==> row.userId.value in m && m[row.userId.value] == NamePrefix + p
                               && r.value == [NamePrefix + p, p, ""])
      && (row.userId.None? ==> row.userIp in m && m[row.userIp] == AnonPrefix + p
                               && r.value == [AnonPrefix + p, "", p])
  {
    var (uid, prefix) := UidOf(row);
    var p := FreshName(ids.Values, prefix, draws, 0).value;
    assert (prefix + p)[5..] == p;
  }

  /** A new pseudonym is one of the first ten draws, and its user name is not already
      given to anyone. */
  lemma NewPseudonymFresh(ids: map<string, string>, row: Row, draws: seq<string>)
    requires DrawsOk(draws)
    requires UidOf(row).0 !in ids && RedactSpec(ids, row, draws).0.Ok?
    ensures var (r, m) := RedactSpec(ids, row, draws);
      var n := m[UidOf(row).0];
      IsUserName(n) && forall u | u in ids :: ids[u] != n
  {
    var (uid, prefix) := UidOf(row);
    var p := FreshName(ids.Values, prefix, draws, 0).value;
    var n := prefix + p;
    assert n[..5] == prefix && n[5..] == p;
    forall u | u in ids ensures ids[u] != n {
      assert ids[u] in ids.Values;
    }
  }

  /** Ten draws that all collide raise, and nothing is stored. */
  lemma CollisionsRaise(ids: map<string, string>, row: Row, draws: seq<string>)
    requires |draws| >= Attempts && UidOf(row).0 !in ids
    requires forall i | 0 <= i < Attempts :: UidOf(row).1 + draws[i] in ids.Values
    ensures RedactSpec(ids, row, draws) == (Err(TooManyCollisions), ids)
  {
  }

  /** The map only grows: stored users keep their user names. */
  lemma RedactExtends(ids: map<string, string>, row: Row, draws: seq<string>)
    requires |draws| >= Attempts
    ensures Extends(RedactSpec(ids, row, draws).1, ids)
    ensures |RedactSpec(ids, row, draws).1.Keys| <= |ids.Keys| + 1
  {
    var (uid, prefix) := UidOf(row);
    if uid !in ids && FreshName(ids.Values, prefix, draws, 0).Ok? {
      var m := RedactSpec(ids, row, draws).1;
      assert m.Keys == ids.Keys + {uid};
    }
  }

  /** Every stored user name keeps its shape and no two users share one; under that
      invariant `redact` never meets an unknown prefix. */
  lemma RedactKeepsValid(ids: map<string, string>, row: Row, draws: seq<string>)
    requires ValidMap(ids) && DrawsOk(draws)
    ensures ValidMap(RedactSpec(ids, row, draws).1)
    ensures RedactSpec(ids, row, draws).0.Err? ==> RedactSpec(ids, row, draws).0 == Err(TooManyCollisions)
  {
    var (uid, prefix) := UidOf(row);
    if uid !in ids && FreshName(ids.Values, prefix, draws, 0).Ok? {
      NewPseudonymFresh(ids, row, draws);
    }
  }
}
