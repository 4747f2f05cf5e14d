/** The rule tables of the proxy: a packet is judged by the first matching rule, rules may jump
    to other tables, also in circles, and jumps are cut off below a fixed depth. */
module RuleTables {
  import opened Bytes

  const MAX_LEVEL: nat := 10
  const MAIN: string := "main"

  datatype Action =
    | ToProxy(name: string)
    | ToGroup(name: string)
    | Reject
    | Jump(table: string)
    | Return

  datatype Protocol = Tcp | Udp

  /** A destination pattern; only whether it matches the packet matters here. */
  datatype Destination = Destination(text: string)

  datatype Rule = Rule(dest: seq<Destination>, proto: Option<Protocol>, action: Action)

  type Tables = map<string, seq<Rule>>

  /** The packet being judged: which patterns match it, and its protocol. */
  datatype Packet = Packet(hits: Destination -> bool, proto: Protocol)

  predicate Matches(p: Packet, r: Rule) {
    && (forall i :: 0 <= i < |r.dest| ==> p.hits(r.dest[i]))
    && (r.proto.Some? ==> r.proto.value == p.proto)
  }

  datatype Verdict = Proxy(name: string) | ProxyGroup(name: string) | Rejected | Returned

  /** What a rule other than a jump says. */
  function VerdictOf(a: Action): Verdict
    requires !a.Jump?
  {
    match a
    case ToProxy(name) => Proxy(name)
    case ToGroup(name) => ProxyGroup(name)
    case Reject => Rejected
    case Return => Returned
  }

  // ---- evaluation with the level cap -----------------------------------------------------

  /** The verdict, if any, and how many rules were looked at. */
  datatype Run = Run(verdict: Option<Verdict>, examined: nat)

  function Execute(ts: Tables, p: Packet, level: nat, table: string): Run
    decreases MAX_LEVEL + 1 - level, 1, 0
  {
    if level > MAX_LEVEL || table !in ts then Run(None, 0)
    else ExecuteFrom(ts, p, level, ts[table])
  }

  function ExecuteFrom(ts: Tables, p: Packet, level: nat, rules: seq<Rule>): Run
    requires level <= MAX_LEVEL
    decreases MAX_LEVEL + 1 - level, 0, |rules|
  {
    if rules == [] then Run(None, 0)
    else if !Matches(p, rules[0]) then After(1, ExecuteFrom(ts, p, level, rules[1..]))
    else if !rules[0].action.Jump? then Run(Some(VerdictOf(rules[0].action)), 1)
    else
      var callee := Execute(ts, p, level + 1, rules[0].action.table);
      if callee.verdict == Some(Returned)
      then After(1 + callee.examined, ExecuteFrom(ts, p, level, rules[1..]))
      else After(1, callee)
  }

  function After(n: nat, r: Run): Run {
    Run(r.verdict, n + r.examined)
  }

  /** The loop over a rule's destinations, which stops at the first that does not match. */
  method MatchesDest(p: Packet, r: Rule) returns (matches: bool)
    ensures matches <==> forall i :: 0 <= i < |r.dest| ==> p.hits(r.dest[i])
  {
    matches := true;
    for i := 0 to |r.dest|
      invariant matches && forall k :: 0 <= k < i ==> p.hits(r.dest[k])
    {
      matches := matches && p.hits(r.dest[i]);
      if !matches {
        break;
      }
    }
  }

  /** execute_table, with a count of the rules it examines. */
  method ExecuteTable(ts: Tables, p: Packet, level: nat, table: string)
    returns (verdict: Option<Verdict>, examined: nat)
    ensures Run(verdict, examined) == Execute(ts, p, level, table)
    decreases MAX_LEVEL + 1 - level
  {
    examined := 0;
    if level > MAX_LEVEL || table !in ts {
      return None, 0;
    }
    var rules := ts[table];
    var i := 0;
    assert rules[0..] == rules;
    while i < |rules|
      invariant 0 <= i <= |rules|
      invariant Execute(ts, p, level, table) == After(examined, ExecuteFrom(ts, p, level, rules[i..]))
    {
      var rule := rules[i];
      assert rules[i..][1..] == rules[i + 1..];
      i, examined := i + 1, examined + 1;
      var matchesDest := MatchesDest(p, rule);
      if !matchesDest {
        continue;
      }
      if rule.proto.Some? && rule.proto.value != p.proto {
        continue;
      }
      match rule.action {
        case Jump(target) =>
          var v, n := ExecuteTable(ts, p, level + 1, target);
          examined := examined + n;
          if v != Some(Returned) {
            return v, examined;
          }
        case ToProxy(name) => return Some(Proxy(name)), examined;
        case ToGroup(name) => return Some(ProxyGroup(name)), examined;
        case Reject => return Some(Rejected), examined;
        case Return => return Some(Returned), examined;
      }
    }
    verdict := None;
  }

  /** The verdict on a packet: that of the main table, where a return is none. */
  function Judge(ts: Tables, p: Packet): Option<Verdict> {
    var r := Execute(ts, p, 0, MAIN);
    if r.verdict == Some(Returned) then None else r.verdict
  }

  method ExecuteRules(ts: Tables, p: Packet) returns (verdict: Option<Verdict>)
    ensures verdict == Judge(ts, p)
  {
    var n;
    verdict, n := ExecuteTable(ts, p, 0, MAIN);
    if verdict == Some(Returned) {
      verdict := None;
    }
  }

  // ---- the meaning of tables without a cap -------------------------------------------------

  /** A finite proof that a table, or the rest of one, ends with some result. */
  datatype Derivation =
    | NoSuchTable
    | InTable(body: Derivation)
    | OffTheEnd
    | Skips(rest: Derivation)
    | Decides
    | JumpsAndResumes(callee: Derivation, rest: Derivation)
    | JumpsForGood(callee: Derivation)

  ghost predicate TableYields(ts: Tables, p: Packet, d: Derivation, table: string, v: Option<Verdict>)
    decreases d, 1
  {
    match d
    case NoSuchTable => table !in ts && v == None
    case InTable(body) => table in ts && RulesYield(ts, p, body, ts[table], v)
    case _ => false
  }

  /** A rule applies when all its destinations match, and its protocol, if it names one, is
      the packet's. */
  ghost predicate Applies(p: Packet, r: Rule) {
    && (forall d :: d in r.dest ==> p.hits(d))
    && (r.proto == None || r.proto == Some(p.proto))
  }

  /** What a rule says that does not jump. */
  ghost predicate Says(a: Action, v: Verdict) {
    || (exists name :: a == ToProxy(name) && v == Proxy(name))
    || (exists name :: a == ToGroup(name) && v == ProxyGroup(name))
    || (a == Reject && v == Rejected)
    || (a == Return && v == Returned)
  }

  lemma MatchesIsApplies(p: Packet, r: Rule)
    ensures Matches(p, r) <==> Applies(p, r)
  {
    if Matches(p, r) {
      forall d | d in r.dest ensures p.hits(d) {
        var i :| 0 <= i < |r.dest| && r.dest[i] == d;
      }
    }
  }

  lemma VerdictOfSays(a: Action, v: Verdict)
    requires !a.Jump?
    ensures Says(a, v) <==> v == VerdictOf(a)
  {
  }

  /** Only a return resumes the caller; running off a table or jumping to a missing one ends
      everything without a result. */
  ghost predicate RulesYield(ts: Tables, p: Packet, d: Derivation, rules: seq<Rule>, v: Option<Verdict>)
    decreases d, 0
  {
    if rules == [] then d == OffTheEnd && v == None
    else
      var r := rules[0];
      match d
      case Skips(rest) => !Applies(p, r) && RulesYield(ts, p, rest, rules[1..], v)
      case Decides => Applies(p, r) && v.Some? && Says(r.action, v.value)
      case JumpsAndResumes(callee, rest) =>
        && Applies(p, r) && r.action.Jump?
        && TableYields(ts, p, callee, r.action.table, Some(Returned))
        && RulesYield(ts, p, rest, rules[1..], v)
      case JumpsForGood(callee) =>
        && Applies(p, r) && r.action.Jump? && v != Some(Returned)
        && TableYields(ts, p, callee, r.action.table, v)
      case _ => false
  }

  /** How deep jumps are nested. */
  function Depth(d: Derivation): nat {
    match d
    case InTable(body) => Depth(body)
    case Skips(rest) => Depth(rest)
    case JumpsAndResumes(callee, rest) => Max(1 + Depth(callee), Depth(rest))
    case JumpsForGood(callee) => 1 + Depth(callee)
    case _ => 0
  }

  /** Within the cap the evaluator agrees with a derivation; beyond it there is no verdict. */
  lemma {:induction false} TableAgrees(ts: Tables, p: Packet, d: Derivation, level: nat, table: string, v: Option<Verdict>)
    requires TableYields(ts, p, d, table, v)
    ensures Execute(ts, p, level, table).verdict == if level + Depth(d) <= MAX_LEVEL then v else None
    decreases d, 1
  {
    if d.InTable? && level <= MAX_LEVEL {
      RulesAgree(ts, p, d.body, level, ts[table], v);
    }
  }

  lemma {:induction false} RulesAgree(ts: Tables, p: Packet, d: Derivation, level: nat, rules: seq<Rule>, v: Option<Verdict>)
    requires level <= MAX_LEVEL && RulesYield(ts, p, d, rules, v)
    ensures ExecuteFrom(ts, p, level, rules).verdict == if level + Depth(d) <= MAX_LEVEL then v else None
    decreases d, 0
  {
    if rules != [] {
      var action := rules[0].action;
      MatchesIsApplies(p, rules[0]);
      if d.Decides? {
        VerdictOfSays(action, v.value);
      }
      match d {
        case Skips(rest) =>
          RulesAgree(ts, p, rest, level, rules[1..], v);
        case JumpsAndResumes(callee, rest) =>
          JumpTaken(ts, p, level, rules);
          TableAgrees(ts, p, callee, level + 1, action.table, Some(Returned));
          RulesAgree(ts, p, rest, level, rules[1..], v);
        case JumpsForGood(callee) =>
          JumpTaken(ts, p, level, rules);
          TableAgrees(ts, p, callee, level + 1, action.table, v);
        case _ =>
      }
    }
  }

  lemma JumpTaken(ts: Tables, p: Packet, level: nat, rules: seq<Rule>)
    requires level <= MAX_LEVEL && rules != [] && Matches(p, rules[0]) && rules[0].action.Jump?
    ensures var back := Execute(ts, p, level + 1, rules[0].action.table).verdict;
      ExecuteFrom(ts, p, level, rules).verdict ==
      if back == Some(Returned) then ExecuteFrom(ts, p, level, rules[1..]).verdict else back
  {
  }

  /** Every verdict of the evaluator has a derivation within the cap. */
  lemma {:induction false} VerdictDerives(ts: Tables, p: Packet, level: nat, table: string)
    returns (d: Derivation)
    requires Execute(ts, p, level, table).verdict.Some?
    ensures TableYields(ts, p, d, table, Execute(ts, p, level, table).verdict)
    ensures level + Depth(d) <= MAX_LEVEL
    decreases MAX_LEVEL + 1 - level, 1, 0
  {
    var body := RulesDerive(ts, p, level, ts[table]);
    d := InTable(body);
  }

  lemma {:induction false} RulesDerive(ts: Tables, p: Packet, level: nat, rules: seq<Rule>)
    returns (d: Derivation)
    requires level <= MAX_LEVEL && ExecuteFrom(ts, p, level, rules).verdict.Some?
    ensures RulesYield(ts, p, d, rules, ExecuteFrom(ts, p, level, rules).verdict)
    ensures level + Depth(d) <= MAX_LEVEL
    decreases MAX_LEVEL + 1 - level, 0, |rules|
  {
    MatchesIsApplies(p, rules[0]);
    if !Matches(p, rules[0]) {
      var rest := RulesDerive(ts, p, level, rules[1..]);
      d := Skips(rest);
    } else if !rules[0].action.Jump? {
      VerdictOfSays(rules[0].action, VerdictOf(rules[0].action));
      d := Decides;
    } else {
      var callee := VerdictDerives(ts, p, level + 1, rules[0].action.table);
      if Execute(ts, p, level + 1, rules[0].action.table).verdict == Some(Returned) {
        var rest := RulesDerive(ts, p, level, rules[1..]);
        d := JumpsAndResumes(callee, rest);
      } else {
        d := JumpsForGood(callee);
      }
    }
  }

  /** The evaluator gives a verdict exactly if the tables mean it with jumps nested at most
      ten deep, however the tables jump in circles. */
  lemma VerdictExact(ts: Tables, p: Packet, table: string, v: Verdict)
    ensures Execute(ts, p, 0, table).verdict == Some(v) <==>
            exists d :: TableYields(ts, p, d, table, Some(v)) && Depth(d) <= 10
  {
    if Execute(ts, p, 0, table).verdict == Some(v) {
      var d := VerdictDerives(ts, p, 0, table);
    }
    forall d | TableYields(ts, p, d, table, Some(v)) && Depth(d) <= 10
      ensures Execute(ts, p, 0, table).verdict == Some(v)
    {
      TableAgrees(ts, p, d, 0, table, Some(v));
    }
  }

  /** The verdict on a packet is that of the table "main" with jumps nested at most ten deep,
      but a return from it is none. */
  lemma JudgeExact(ts: Tables, p: Packet, v: Verdict)
    ensures Judge(ts, p) == Some(v) <==>
            v != Returned && exists d :: TableYields(ts, p, d, "main", Some(v)) && Depth(d) <= 10
  {
    VerdictExact(ts, p, "main", v);
  }

  /** Every verdict comes from a rule of some table that applies and says it: a proxy from a
      rule for that proxy, a group from one for that group, a rejection from a reject. */
  ghost predicate SaidBy(ts: Tables, p: Packet, t: string, i: nat, v: Verdict) {
    t in ts && i < |ts[t]| && Applies(p, ts[t][i]) && Says(ts[t][i].action, v)
  }

  lemma VerdictHasRule(ts: Tables, p: Packet, v: Verdict) returns (t: string, i: nat)
    requires Judge(ts, p) == Some(v)
    ensures SaidBy(ts, p, t, i, v)
  {
    var d := VerdictDerives(ts, p, 0, MAIN);
    t, i := YieldHasRule(ts, p, d, MAIN, v);
  }

  lemma {:induction false} YieldHasRule(ts: Tables, p: Packet, d: Derivation, table: string, v: Verdict)
    returns (t: string, i: nat)
    requires TableYields(ts, p, d, table, Some(v))
    ensures SaidBy(ts, p, t, i, v)
    decreases d, 1
  {
    assert ts[table][0..] == ts[table];
    t, i := RestHasRule(ts, p, d.body, table, 0, v);
  }

  lemma {:induction false} RestHasRule(ts: Tables, p: Packet, d: Derivation, table: string, from: nat,
                                       v: Verdict)
    returns (t: string, i: nat)
    requires table in ts && from <= |ts[table]| && RulesYield(ts, p, d, ts[table][from..], Some(v))
    ensures SaidBy(ts, p, t, i, v)
    decreases d, 0
  {
    var rules := ts[table][from..];
    assert rules[0] == ts[table][from] && rules[1..] == ts[table][from + 1..];
    match d {
      case Decides => t, i := table, from;
      case Skips(rest) => t, i := RestHasRule(ts, p, rest, table, from + 1, v);
      case JumpsAndResumes(_, rest) => t, i := RestHasRule(ts, p, rest, table, from + 1, v);
      case JumpsForGood(callee) => t, i := YieldHasRule(ts, p, callee, rules[0].action.table, v);
    }
  }

  /** Where the tables mean something, the evaluator is right exactly if that is no verdict
      anyway or the jumps are nested at most ten deep; it is never wrong in another way. */
  lemma EvaluatorRightExact(ts: Tables, p: Packet, d: Derivation, table: string, v: Option<Verdict>)
    requires TableYields(ts, p, d, table, v)
    ensures Execute(ts, p, 0, table).verdict == v <==> v.None? || Depth(d) <= 10
  {
    TableAgrees(ts, p, d, 0, table, v);
  }

  /** Table number `i` of a chain that starts at the main table, and the chain of k jumps
      that ends in a reject. */
  function ChainName(i: nat): (s: string)
    ensures |s| == |MAIN| + i && (i == 0 ==> s == MAIN)
  {
    MAIN + seq(i, _ => 'x')
  }

  function ChainTables(k: nat): Tables {
    assert forall i: nat, j: nat :: ChainName(i) == ChainName(j) ==> |ChainName(i)| == |ChainName(j)|;
    map i: nat | 0 <= i <= k :: ChainName(i) := ChainTable(k, i)
  }

  function ChainTable(k: nat, i: nat): seq<Rule> {
    [Rule([], None, if i == k then Reject else Jump(ChainName(i + 1)))]
  }

  function ChainDerivation(n: nat): (d: Derivation)
    ensures Depth(d) == n
  {
    InTable(if n == 0 then Decides else JumpsForGood(ChainDerivation(n - 1)))
  }

  lemma InChain(k: nat, i: nat)
    requires i <= k
    ensures ChainName(i) in ChainTables(k) && ChainTables(k)[ChainName(i)] == ChainTable(k, i)
  {
  }

  lemma {:induction false} ChainYields(p: Packet, k: nat, i: nat)
    requires i <= k
    ensures TableYields(ChainTables(k), p, ChainDerivation(k - i), ChainName(i), Some(Rejected))
    decreases k - i
  {
    var ts, d := ChainTables(k), ChainDerivation(k - i);
    InChain(k, i);
    if i < k {
      ChainYields(p, k, i + 1);
    }
    assert RulesYield(ts, p, d.body, ChainTable(k, i), Some(Rejected));
  }

  lemma OneRuleWork(ts: Tables, p: Packet, level: nat, r: Rule)
    requires level <= MAX_LEVEL && Matches(p, r)
    ensures ExecuteFrom(ts, p, level, [r]).examined ==
            1 + if r.action.Jump? then Execute(ts, p, level + 1, r.action.table).examined else 0
  {
    assert [r][1..] == [] && ExecuteFrom(ts, p, level, []).examined == 0;
  }

  /** Each table of a chain costs one rule, down to the eleventh. */
  lemma {:induction false} ChainWork(p: Packet, k: nat, i: nat)
    requires i <= k && i <= 11
    ensures Execute(ChainTables(k), p, i, ChainName(i)).examined == Min(k + 1, 11) - i
    decreases k - i
  {
    InChain(k, i);
    if i <= 10 {
      OneRuleWork(ChainTables(k), p, i, ChainTable(k, i)[0]);
      if i < k {
        ChainWork(p, k, i + 1);
      }
    }
  }

  /** A chain of eleven jumps already loses the verdict that ten jumps keep. */
  lemma LongChainsLoseVerdicts(p: Packet, k: nat)
    ensures Judge(ChainTables(k), p) == if k <= 10 then Some(Rejected) else None
  {
    ChainYields(p, k, 0);
    TableAgrees(ChainTables(k), p, ChainDerivation(k), 0, MAIN, Some(Rejected));
  }

  /** A table has at most one meaning, and one derivation of it. */
  lemma MeaningIsUnique(ts: Tables, p: Packet, table: string,
                        d1: Derivation, v1: Option<Verdict>, d2: Derivation, v2: Option<Verdict>)
    requires TableYields(ts, p, d1, table, v1) && TableYields(ts, p, d2, table, v2)
    ensures v1 == v2 && d1 == d2
    decreases d1, 1
  {
    if d1.InTable? {
      RestIsUnique(ts, p, ts[table], d1.body, v1, d2.body, v2);
    }
  }

  lemma RestIsUnique(ts: Tables, p: Packet, rules: seq<Rule>,
                     d1: Derivation, v1: Option<Verdict>, d2: Derivation, v2: Option<Verdict>)
    requires RulesYield(ts, p, d1, rules, v1) && RulesYield(ts, p, d2, rules, v2)
    ensures v1 == v2 && d1 == d2
    decreases d1, 0
  {
    if rules != [] {
      var action := rules[0].action;
      match d1 {
        case Skips(rest) =>
          RestIsUnique(ts, p, rules[1..], rest, v1, d2.rest, v2);
        case JumpsAndResumes(callee, rest) =>
          var back := if d2.JumpsAndResumes? then Some(Returned) else v2;
          MeaningIsUnique(ts, p, action.table, callee, Some(Returned), d2.callee, back);
          RestIsUnique(ts, p, rules[1..], rest, v1, d2.rest, v2);
        case JumpsForGood(callee) =>
          var back := if d2.JumpsAndResumes? then Some(Returned) else v2;
          MeaningIsUnique(ts, p, action.table, callee, v1, d2.callee, back);
        case _ =>
      }
    }
  }

  // ---- rules that do not match do not matter -------------------------------------------------

  function Matching(p: Packet, rules: seq<Rule>): seq<Rule> {
    if rules == [] then []
    else (if Matches(p, rules[0]) then [rules[0]] else []) + Matching(p, rules[1..])
  }

  function OnlyMatching(ts: Tables, p: Packet): Tables {
    map t | t in ts :: Matching(p, ts[t])
  }

  lemma {:induction false} OnlyMatchingRulesMatter(ts: Tables, p: Packet, level: nat, table: string)
    ensures Execute(OnlyMatching(ts, p), p, level, table).verdict == Execute(ts, p, level, table).verdict
    decreases MAX_LEVEL + 1 - level, 1, 0
  {
    if level <= MAX_LEVEL && table in ts {
      RestMatters(ts, p, level, ts[table]);
    }
  }

  lemma {:induction false} RestMatters(ts: Tables, p: Packet, level: nat, rules: seq<Rule>)
    requires level <= MAX_LEVEL
    ensures ExecuteFrom(OnlyMatching(ts, p), p, level, Matching(p, rules)).verdict ==
            ExecuteFrom(ts, p, level, rules).verdict
    decreases MAX_LEVEL + 1 - level, 0, |rules|
  {
    if rules != [] {
      RestMatters(ts, p, level, rules[1..]);
      if Matches(p, rules[0]) {
        assert Matching(p, rules)[1..] == Matching(p, rules[1..]);
        if rules[0].action.Jump? {
          OnlyMatchingRulesMatter(ts, p, level + 1, rules[0].action.table);
        }
      } else {
        assert Matching(p, rules) == Matching(p, rules[1..]);
      }
    }
  }

  // ---- how much work an evaluation is ---------------------------------------------------------

  function Power(k: nat, n: nat): nat {
    if n == 0 then 1 else k * Power(k, n - 1)
  }

  /** k + k^2 + ... + k^n. */
  function PowerSum(k: nat, n: nat): nat {
    if n == 0 then 0 else PowerSum(k, n - 1) + Power(k, n)
  }

  lemma {:induction false} PowerSumStep(k: nat, n: nat)
    requires n > 0
    ensures PowerSum(k, n) == k * (1 + PowerSum(k, n - 1))
  {
    if n == 1 {
      assert Power(k, 1) == k * Power(k, 0) == k;
    } else {
      PowerSumStep(k, n - 1);
      assert k * (1 + PowerSum(k, n - 2) + Power(k, n - 1)) ==
             k * (1 + PowerSum(k, n - 2)) + k * Power(k, n - 1);
    }
  }

  ghost predicate TablesUpTo(ts: Tables, k: nat) {
    forall t :: t in ts ==> |ts[t]| <= k
  }

  /** With tables of at most `k` rules an evaluation looks at no more than k + k^2 + ... + k^11
      rules, circles or not. */
  lemma WorkIsBounded(ts: Tables, p: Packet, k: nat, table: string)
    requires TablesUpTo(ts, k)
    ensures Execute(ts, p, 0, table).examined <= PowerSum(k, 11)
  {
    TableWork(ts, p, k, 0, table);
  }

  lemma Scaled(a: nat, b: nat, c: nat)
    requires a <= b
    ensures a * c <= b * c
  {
  }

  lemma OneMore(a: nat, c: nat)
    ensures (a + 1) * c == c + a * c
  {
  }

  lemma {:induction false} TableWork(ts: Tables, p: Packet, k: nat, level: nat, table: string)
    requires TablesUpTo(ts, k) && level <= MAX_LEVEL + 1
    ensures Execute(ts, p, level, table).examined <= PowerSum(k, MAX_LEVEL + 1 - level)
    decreases MAX_LEVEL + 1 - level, 1, 0
  {
    if level <= MAX_LEVEL && table in ts {
      RulesWork(ts, p, k, level, ts[table]);
      PowerSumStep(k, MAX_LEVEL + 1 - level);
      Scaled(|ts[table]|, k, 1 + PowerSum(k, MAX_LEVEL - level));
    }
  }

  lemma {:induction false} RulesWork(ts: Tables, p: Packet, k: nat, level: nat, rules: seq<Rule>)
    requires TablesUpTo(ts, k) && level <= MAX_LEVEL
    ensures ExecuteFrom(ts, p, level, rules).examined <= |rules| * (1 + PowerSum(k, MAX_LEVEL - level))
    decreases MAX_LEVEL + 1 - level, 0, |rules|
  {
    if rules != [] {
      var below := 1 + PowerSum(k, MAX_LEVEL - level);
      RulesWork(ts, p, k, level, rules[1..]);
      OneMore(|rules[1..]|, below);
      if rules[0].action.Jump? {
        TableWork(ts, p, k, level + 1, rules[0].action.table);
      }
    }
  }
}
