/** `find_server`: the first rule of the destination table whose pattern
    matches a recipient address. */
module Routing {

  import opened Results
  import opened Config

  /** `re.compile(pattern).match(address) is not None`: the regular
      expression engine, left uninterpreted. `re.match` anchors a match at
      the start of the address only. The `$` appended to every pattern
      binds tighter than `|`, so `a|b` becomes `a|b$` and accepts `ax`;
      and `$` also matches just before a trailing newline. */
  type Matcher = (string, string) -> bool

  predicate Matches(m: Matcher, server: Server, address: string)
  {
    m(server.pattern, address)
  }

  /** No rule at position `from` or later (and before `to`) matches. */
  predicate NoMatchIn(table: seq<Server>, m: Matcher, address: string, from: nat, to: nat)
    requires to <= |table|
  {
    forall j :: from <= j < to ==> !Matches(m, table[j], address)
  }

  /** Position `i` holds the first rule that matches `address`. */
  predicate IsFirstMatch(table: seq<Server>, m: Matcher, address: string, i: nat)
  {
    i < |table| && Matches(m, table[i], address) && NoMatchIn(table, m, address, 0, i)
  }

  /** The scan of `find_server`, started at position `from`. */
  function FirstMatchFrom(table: seq<Server>, m: Matcher, address: string, from: nat): (r: Option<nat>)
    requires from <= |table|
    ensures r.Some? ==>
      from <= r.value < |table| && Matches(m, table[r.value], address)
      && NoMatchIn(table, m, address, from, r.value)
    ensures r.None? ==> NoMatchIn(table, m, address, from, |table|)
    decreases |table| - from
  {
    if from == |table| then None
    else if Matches(m, table[from], address) then Some(from)
    else FirstMatchFrom(table, m, address, from + 1)
  }

  /** The position of the rule `find_server` returns. First match wins:
      the result is position `i` exactly when the rule there matches and no
      earlier rule does, whatever later rules also match. */
  function FirstMatch(table: seq<Server>, m: Matcher, address: string): (r: Option<nat>)
    ensures forall i: nat :: r == Some(i) <==> IsFirstMatch(table, m, address, i)
    ensures r.None? <==> NoMatchIn(table, m, address, 0, |table|)
  {
    FirstMatchFrom(table, m, address, 0)
  }

  /** `find_server`. */
  function FindServer(table: seq<Server>, m: Matcher, address: string): (r: Option<Server>)
    ensures r.None? <==> NoMatchIn(table, m, address, 0, |table|)
    ensures r.Some? ==> exists i: nat :: IsFirstMatch(table, m, address, i) && r.value == table[i]
  {
    match FirstMatch(table, m, address)
    case None => None
    case Some(i) => Some(table[i])
  }

  /** Rules appended after the first match never change the resolution,
      and an address no rule matches is resolved by the new rules alone. */
  lemma AppendRules(table: seq<Server>, more: seq<Server>, m: Matcher, address: string)
    ensures FirstMatch(table, m, address).Some? ==>
      FirstMatch(table + more, m, address) == FirstMatch(table, m, address)
    ensures FirstMatch(table, m, address).None? ==>
      FirstMatch(table + more, m, address) ==
        match FirstMatch(more, m, address)
        case None => None
        case Some(j) => Some(|table| + j)
  {
    var whole := table + more;
    match FirstMatch(table, m, address)
    case Some(i) =>
      assert IsFirstMatch(whole, m, address, i) by {
        assert whole[i] == table[i];
        forall j | 0 <= j < i ensures !Matches(m, whole[j], address) {
          assert whole[j] == table[j];
        }
      }
    case None =>
      match FirstMatch(more, m, address)
      case Some(j) =>
        assert IsFirstMatch(whole, m, address, |table| + j) by {
          assert whole[|table| + j] == more[j];
          forall k | 0 <= k < |table| + j ensures !Matches(m, whole[k], address) {
            if k < |table| {
              assert whole[k] == table[k];
            } else {
              assert whole[k] == more[k - |table|];
            }
          }
        }
      case None =>
        forall k | 0 <= k < |whole| ensures !Matches(m, whole[k], address) {
          if k < |table| {
            assert whole[k] == table[k];
          } else {
            assert whole[k] == more[k - |table|];
          }
        }
  }

  /** The address has a destination: `find_server` does not return `None`. */
  predicate Routable(table: seq<Server>, m: Matcher, address: string)
  {
    FirstMatch(table, m, address).Some?
  }

  predicate AllRoutable(table: seq<Server>, m: Matcher, addresses: seq<string>)
  {
    forall i :: 0 <= i < |addresses| ==> Routable(table, m, addresses[i])
  }
}
