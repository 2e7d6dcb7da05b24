/** contests_2.c and contests.c: the ordered list of IP access rules, a tree node whose children are
    doubly linked siblings, edited in place. */
module IpRules {

  /** An address; ipv6_match_mask is left abstract. */
  type Ip = nat

  /** The payload of struct contest_ip. ssl == -1 stands for "with and without". */
  datatype Rule = Rule(addr: Ip, mask: Ip, ssl: int, allow: int)

  /** What a slot stands for: the rules in order, and the verdict when none matches. */
  datatype Policy = Policy(rules: seq<Rule>, defaultAllow: int)

  /** ipv6_match_mask */
  type Mask = (Ip, Ip, Ip) -> bool

  // ---------------------------------------------------------------- the meaning of a policy

  predicate Matches(r: Rule, m: Mask, ip: Ip, ssl: int) {
    m(r.addr, r.mask, ip) && (r.ssl == -1 || r.ssl == ssl)
  }

  function Verdict(p: Policy, m: Mask, ip: Ip, ssl: int): int
    decreases |p.rules|
  {
    if p.rules == [] then p.defaultAllow
    else if Matches(p.rules[0], m, ip, ssl) then p.rules[0].allow
    else Verdict(Policy(p.rules[1..], p.defaultAllow), m, ip, ssl)
  }

  predicate NoneMatches(rs: seq<Rule>, m: Mask, ip: Ip, ssl: int) {
    forall k | 0 <= k < |rs| :: !Matches(rs[k], m, ip, ssl)
  }

  /** The first rule that matches decides. */
  lemma {:induction false} FirstMatchDecides(p: Policy, k: nat, m: Mask, ip: Ip, ssl: int)
    requires k <= |p.rules| && NoneMatches(p.rules[..k], m, ip, ssl)
    ensures k == |p.rules| ==> Verdict(p, m, ip, ssl) == p.defaultAllow
    ensures k < |p.rules| && Matches(p.rules[k], m, ip, ssl) ==> Verdict(p, m, ip, ssl) == p.rules[k].allow
    ensures Verdict(p, m, ip, ssl) == Verdict(Policy(p.rules[k..], p.defaultAllow), m, ip, ssl)
    decreases k
  {
    if k == 0 {
      assert p.rules[0..] == p.rules;
    } else {
      var rest := Policy(p.rules[1..], p.defaultAllow);
      assert p.rules[..k][0] == p.rules[0];
      assert NoneMatches(rest.rules[..k - 1], m, ip, ssl) by {
        var front := rest.rules[..k - 1];
        forall j | 0 <= j < |front| ensures !Matches(front[j], m, ip, ssl) {
          assert front[j] == p.rules[..k][j + 1];
        }
      }
      FirstMatchDecides(rest, k - 1, m, ip, ssl);
      assert rest.rules[k - 1..] == p.rules[k..];
    }
  }

  /** A rule for the other kind of connection, or for another network, might as well not be there. */
  lemma OtherKindIgnored(p: Policy, k: nat, m: Mask, ip: Ip, ssl: int)
    requires k < |p.rules|
    requires !m(p.rules[k].addr, p.rules[k].mask, ip) || (p.rules[k].ssl != -1 && p.rules[k].ssl != ssl)
    ensures Verdict(p.(rules := p.rules[..k] + p.rules[k + 1..]), m, ip, ssl) == Verdict(p, m, ip, ssl)
  {
    var q := p.(rules := p.rules[..k] + p.rules[k + 1..]);
    if NoneMatches(p.rules[..k], m, ip, ssl) {
      FirstMatchDecides(p, k, m, ip, ssl);
      assert q.rules[..k] == p.rules[..k];
      FirstMatchDecides(q, k, m, ip, ssl);
      assert q.rules[k..] == p.rules[k + 1..] == p.rules[k..][1..];
    } else {
      var j := FirstMatch(p.rules[..k], m, ip, ssl);
      assert p.rules[..j] == q.rules[..j] == p.rules[..k][..j];
      FirstMatchDecides(p, j, m, ip, ssl);
      FirstMatchDecides(q, j, m, ip, ssl);
    }
  }

  /** A rule for both kinds, or for the right one, decides for its network when none stands in front of it. */
  lemma FirstRuleDecides(p: Policy, m: Mask, ip: Ip, ssl: int)
    requires p.rules != [] && m(p.rules[0].addr, p.rules[0].mask, ip)
    requires p.rules[0].ssl == -1 || p.rules[0].ssl == ssl
    ensures Verdict(p, m, ip, ssl) == p.rules[0].allow
  {
  }

  function Swapped<T>(s: seq<T>, i: nat): (t: seq<T>)
    requires i + 1 < |s|
    ensures |t| == |s|
  {
    s[i := s[i + 1]][i + 1 := s[i]]
  }

  lemma SwappedTwice<T>(s: seq<T>, i: nat)
    requires i + 1 < |s|
    ensures Swapped(Swapped(s, i), i) == s
  {
  }

  /** Exchanging two neighbours changes the verdict for an address exactly when no earlier rule matches it,
      both of them do, and they say different things. */
  lemma SwapVerdict(p: Policy, i: nat, m: Mask, ip: Ip, ssl: int)
    requires i + 1 < |p.rules|
    ensures Verdict(p.(rules := Swapped(p.rules, i)), m, ip, ssl) != Verdict(p, m, ip, ssl) <==>
              && NoneMatches(p.rules[..i], m, ip, ssl)
              && Matches(p.rules[i], m, ip, ssl) && Matches(p.rules[i + 1], m, ip, ssl)
              && p.rules[i].allow != p.rules[i + 1].allow
  {
    var q := p.(rules := Swapped(p.rules, i));
    assert q.rules[..i] == p.rules[..i];
    if NoneMatches(p.rules[..i], m, ip, ssl) {
      FirstMatchDecides(p, i, m, ip, ssl);
      FirstMatchDecides(q, i, m, ip, ssl);
      SwapHeads(p.rules[i..], p.defaultAllow, m, ip, ssl);
      assert q.rules[i..] == Swapped(p.rules[i..], 0);
    } else {
      var k := FirstMatch(p.rules[..i], m, ip, ssl);
      assert p.rules[..k] == q.rules[..k] == p.rules[..i][..k];
      FirstMatchDecides(p, k, m, ip, ssl);
      FirstMatchDecides(q, k, m, ip, ssl);
    }
  }

  lemma SwapHeads(rs: seq<Rule>, d: int, m: Mask, ip: Ip, ssl: int)
    requires |rs| >= 2
    ensures Verdict(Policy(Swapped(rs, 0), d), m, ip, ssl) != Verdict(Policy(rs, d), m, ip, ssl) <==>
              Matches(rs[0], m, ip, ssl) && Matches(rs[1], m, ip, ssl) && rs[0].allow != rs[1].allow
  {
    var t := Swapped(rs, 0);
    assert rs[1..][1..] == rs[2..] == t[1..][1..];
    assert Verdict(Policy(rs[1..], d), m, ip, ssl) ==
           if Matches(rs[1], m, ip, ssl) then rs[1].allow else Verdict(Policy(rs[2..], d), m, ip, ssl);
    assert Verdict(Policy(t[1..], d), m, ip, ssl) ==
           if Matches(rs[0], m, ip, ssl) then rs[0].allow else Verdict(Policy(rs[2..], d), m, ip, ssl);
  }

  lemma {:induction false} FirstMatch(rs: seq<Rule>, m: Mask, ip: Ip, ssl: int) returns (k: nat)
    requires !NoneMatches(rs, m, ip, ssl)
    ensures k < |rs| && Matches(rs[k], m, ip, ssl) && NoneMatches(rs[..k], m, ip, ssl)
  {
    k := 0;
    while !Matches(rs[k], m, ip, ssl)
      invariant k < |rs|
      invariant forall j | 0 <= j < k :: !Matches(rs[j], m, ip, ssl)
      decreases |rs| - k
    {
      k := k + 1;
    }
  }

  // ---------------------------------------------------------------- the operations on policies

  datatype Op = Add(rule: Rule) | Delete(n: int) | Forward(n: int) | Backward(n: int) | SetDefault(v: int)

  function Apply(p: Policy, op: Op): (r: (Policy, int)) {
    match op
    case Add(rule) => (p.(rules := p.rules + [rule]), 0)
    case Delete(n) =>
      if 0 <= n < |p.rules| then (p.(rules := p.rules[..n] + p.rules[n + 1..]), 0) else (p, -1)
    case Forward(n) =>
      if 0 < n < |p.rules| then (p.(rules := Swapped(p.rules, n - 1)), 0) else (p, -1)
    case Backward(n) =>
      if 0 <= n < |p.rules| - 1 then (p.(rules := Swapped(p.rules, n)), 0) else (p, -1)
    case SetDefault(v) => (p.(defaultAllow := if p.rules == [] || v == 0 then v else 1), 0)
  }

  function ApplyAll(p: Policy, ops: seq<Op>): Policy
    decreases |ops|
  {
    if ops == [] then p else ApplyAll(Apply(p, ops[0]).0, ops[1..])
  }

  /** Moving a rule forward and then backward from where it went restores the order, and the other way round. */
  lemma ForwardThenBackward(p: Policy, n: int)
    requires Apply(p, Forward(n)).1 == 0
    ensures Apply(Apply(p, Forward(n)).0, Backward(n - 1)) == (p, 0)
    ensures Apply(p, Backward(n - 1)).1 == 0
    ensures Apply(Apply(p, Backward(n - 1)).0, Forward(n)) == (p, 0)
  {
    SwappedTwice(p.rules, n - 1);
  }

  // ---------------------------------------------------------------- the linked structure

  ghost predicate Distinct(ns: seq<Node>) {
    forall i, j | 0 <= i < j < |ns| :: ns[i] != ns[j]
  }

  /** struct contest_ip with its links in the tree. */
  class Node {
    var up: Access?
    var left: Node?
    var right: Node?
    const rule: Rule

    constructor (rule: Rule)
      ensures this.rule == rule && up == null && left == null && right == null
    {
      this.rule := rule;
      up, left, right := null, null, null;
    }
  }

  /** struct contest_access: the parent of the rule nodes. */
  class Access {
    var firstDown: Node?
    var lastDown: Node?
    var defaultIsAllow: int
    ghost var nodes: seq<Node>

    /** A well-formed doubly linked list of children. */
    ghost predicate Valid()
      reads this, nodes
    {
      && Distinct(nodes)
      && firstDown == (if nodes == [] then null else nodes[0])
      && lastDown == (if nodes == [] then null else nodes[|nodes| - 1])
      && (forall i | 0 <= i < |nodes| :: LinkedAt(nodes, i))
    }

    /** The i-th child hangs below this node, between its two neighbours. */
    ghost predicate LinkedAt(ns: seq<Node>, i: nat)
      requires i < |ns|
      reads ns
    {
      && ns[i].up == this
      && ns[i].left == (if i == 0 then null else ns[i - 1])
      && ns[i].right == (if i == |ns| - 1 then null else ns[i + 1])
    }

    ghost function Rules(): (rs: seq<Rule>)
      reads this
      ensures |rs| == |nodes|
    {
      seq(|nodes|, i requires 0 <= i < |nodes| reads this => nodes[i].rule)
    }

    /** contests_new_node: zero-filled */
    constructor ()
      ensures Valid() && nodes == [] && defaultIsAllow == 0
    {
      firstDown, lastDown, defaultIsAllow, nodes := null, null, 0, [];
    }

    /** xml_link_node_last */
    method LinkLast(p: Node)
      requires Valid() && p !in nodes
      modifies this, p, nodes
      ensures Valid() && nodes == old(nodes) + [p] && defaultIsAllow == old(defaultIsAllow)
    {
      ghost var ns := nodes;
      if ns != [] { assert LinkedAt(ns, |ns| - 1); }
      p.up := this;
      p.left := lastDown;
      p.right := null;
      if lastDown == null { firstDown := p; } else { lastDown.right := p; }
      lastDown := p;
      nodes := nodes + [p];
      forall i | 0 <= i < |nodes| ensures LinkedAt(nodes, i) {
        if i < |ns| { assert old(LinkedAt(nodes, i)); }
      }
    }

    /** xml_unlink_node */
    method Unlink(p: Node, ghost n: nat)
      requires Valid() && n < |nodes| && nodes[n] == p
      modifies this, nodes
      ensures Valid() && nodes == old(nodes)[..n] + old(nodes)[n + 1..]
      ensures defaultIsAllow == old(defaultIsAllow)
    {
      ghost var ns := nodes;
      assert LinkedAt(ns, n);
      if p.left == null { firstDown := p.right; } else { p.left.right := p.right; }
      if p.right == null { lastDown := p.left; } else { p.right.left := p.left; }
      p.up, p.left, p.right := null, null, null;
      nodes := nodes[..n] + nodes[n + 1..];
      forall i | 0 <= i < |nodes| ensures LinkedAt(nodes, i) {
        var k := if i < n then i else i + 1;
        assert nodes[i] == ns[k];
        assert old(LinkedAt(nodes, k));
      }
    }

    /** swap_tree_nodes: exchanges a node with its right neighbour by relinking both, the nodes around
        them and the ends of the list. */
    method SwapTreeNodes(first: Node, ghost n: nat)
      requires Valid() && n + 1 < |nodes| && nodes[n] == first
      modifies this, nodes
      ensures Valid() && nodes == Swapped(old(nodes), n)
      ensures defaultIsAllow == old(defaultIsAllow)
    {
      ghost var ns := nodes;
      assert LinkedAt(ns, n) && LinkedAt(ns, n + 1);
      var second := first.right;
      assert second != null && second.left == first && first.up == this == second.up;
      var beforeFirst := first.left;
      var afterSecond := second.right;
      first.left := second;
      first.right := afterSecond;
      second.left := beforeFirst;
      second.right := first;
      if beforeFirst == null {
        assert firstDown == first;
        firstDown := second;
      } else {
        beforeFirst.right := second;
      }
      if afterSecond == null {
        assert lastDown == second;
        lastDown := first;
      } else {
        afterSecond.left := first;
      }
      nodes := Swapped(nodes, n);
      forall i | 0 <= i < |nodes| ensures LinkedAt(nodes, i) {
        assert old(LinkedAt(nodes, i));
      }
    }

    /** The walk all the functions start with: the n-th child, or null. */
    method Nth(n: int) returns (p: Node?)
      requires Valid()
      ensures p == if 0 <= n < |nodes| then nodes[n] else null
    {
      var i := 0;
      p := firstDown;
      while i != n && p != null
        invariant 0 <= i <= |nodes|
        invariant p == if i < |nodes| then nodes[i] else null
        invariant 0 <= n ==> i <= n
        decreases |nodes| - i
      {
        assert LinkedAt(nodes, i);
        i := i + 1;
        p := p.right;
      }
      if i != n { p := null; }
    }
  }

  /** A pointer to an access node, as the functions take it. */
  class Slot {
    var acc: Access?

    ghost predicate Valid()
      reads this, acc, if acc == null then [] else acc.nodes
    {
      acc != null ==> acc.Valid()
    }

    /** No node is kept for the policy "no rules, deny". The parser makes one for a contest that says so; the
        operations never make one, and drop it when they come to it. */
    ghost predicate NoIdleNode()
      reads this, acc
    {
      acc != null ==> acc.nodes != [] || acc.defaultIsAllow != 0
    }

    ghost function Repr(): set<object>
      reads this, acc
    {
      if acc == null then {this} else {this, acc} + (set n: Node | n in acc.nodes)
    }

    ghost function Value(): Policy
      reads this, acc
    {
      if acc == null then Policy([], 0) else Policy(acc.Rules(), acc.defaultIsAllow)
    }

    constructor ()
      ensures Valid() && NoIdleNode() && Value() == Policy([], 0) && fresh(Repr())
    {
      acc := null;
    }

    /** contests_add_ip */
    method AddIp(addr: Ip, mask: Ip, sslFlag: int, defaultAllow: int)
      requires Valid()
      modifies Repr()
      ensures Valid() && fresh(Repr() - old(Repr())) && (old(NoIdleNode()) ==> NoIdleNode())
      ensures Value() == old(Apply(Value(), Add(Rule(addr, mask, sslFlag, defaultAllow))).0)
      ensures Value().rules == old(Value()).rules + [Rule(addr, mask, sslFlag, defaultAllow)]
      ensures Value().defaultAllow == old(Value()).defaultAllow
    {
      if acc == null { acc := new Access(); }
      var newIp := new Node(Rule(addr, mask, sslFlag, defaultAllow));
      acc.LinkLast(newIp);
    }

    /** contests_delete_ip_rule */
    method DeleteIpRule(n: int) returns (r: int)
      requires Valid()
      modifies Repr()
      ensures Valid() && fresh(Repr() - old(Repr())) && (old(NoIdleNode()) ==> NoIdleNode())
      ensures (Value(), r) == old(Apply(Value(), Delete(n)))
      ensures var before, rules := old(Value()), old(Value()).rules;
              if 0 <= n < |rules|
              then r == 0 && NoIdleNode() && Value() == before.(rules := rules[..n] + rules[n + 1..])
              else r == -1 && Value() == before
    {
      if acc == null { return -1; }
      var p := acc.Nth(n);
      if p == null { return -1; }
      ghost var rules := acc.Rules();
      acc.Unlink(p, n);
      assert acc.Rules() == rules[..n] + rules[n + 1..];
      if acc.firstDown == null && acc.defaultIsAllow == 0 { acc := null; }
      return 0;
    }

    /** contests_forward_ip_rule */
    method ForwardIpRule(n: int) returns (r: int)
      requires Valid()
      modifies Repr()
      ensures Valid() && fresh(Repr() - old(Repr())) && (old(NoIdleNode()) ==> NoIdleNode())
      ensures (Value(), r) == old(Apply(Value(), Forward(n)))
      ensures var before, rules := old(Value()), old(Value()).rules;
              if 0 < n < |rules|
              then r == 0 && Value() == before.(rules := rules[n - 1 := rules[n]][n := rules[n - 1]])
              else r == -1 && Value() == before
    {
      if acc == null { return -1; }
      var p := acc.Nth(n);
      if p == null { return -1; }
      assert acc.LinkedAt(acc.nodes, n);
      if p.left == null { return -1; }
      ghost var rules := acc.Rules();
      acc.SwapTreeNodes(p.left, n - 1);
      assert acc.Rules() == Swapped(rules, n - 1);
      return 0;
    }

    /** contests_backward_ip_rule */
    method BackwardIpRule(n: int) returns (r: int)
      requires Valid()
      modifies Repr()
      ensures Valid() && fresh(Repr() - old(Repr())) && (old(NoIdleNode()) ==> NoIdleNode())
      ensures (Value(), r) == old(Apply(Value(), Backward(n)))
      ensures var before, rules := old(Value()), old(Value()).rules;
              if 0 <= n < |rules| - 1
              then r == 0 && Value() == before.(rules := rules[n := rules[n + 1]][n + 1 := rules[n]])
              else r == -1 && Value() == before
    {
      if acc == null { return -1; }
      var p := acc.Nth(n);
      if p == null { return -1; }
      assert acc.LinkedAt(acc.nodes, n);
      if p.right == null { return -1; }
      ghost var rules := acc.Rules();
      acc.SwapTreeNodes(p, n);
      assert acc.Rules() == Swapped(rules, n);
      return 0;
    }

    /** contests_set_default */
    method SetDefaultAllow(defaultIsAllow: int)
      requires Valid()
      modifies Repr()
      ensures Valid() && fresh(Repr() - old(Repr())) && (old(NoIdleNode()) ==> NoIdleNode())
      ensures Value() == old(Apply(Value(), SetDefault(defaultIsAllow)).0)
      ensures Value().rules == old(Value()).rules && (Value().rules == [] && defaultIsAllow == 0 ==> acc == null)
      ensures Value().defaultAllow ==
              if Value().rules == [] then defaultIsAllow else if defaultIsAllow == 0 then 0 else 1
    {
      if acc != null && acc.firstDown != null {
        acc.defaultIsAllow := if defaultIsAllow != 0 then 1 else 0;
        return;
      }
      if defaultIsAllow == 0 {
        if acc == null { return; }
        acc.defaultIsAllow := 0;
        if acc.firstDown == null { acc := null; }
        return;
      }
      if acc == null { acc := new Access(); }
      acc.defaultIsAllow := defaultIsAllow;
    }

    /** do_check_ip */
    method CheckIp(m: Mask, ip: Ip, ssl: int) returns (allow: int)
      requires Valid()
      ensures allow == Verdict(Value(), m, ip, ssl)
    {
      if acc == null { return 0; }
      ghost var i := 0;
      ghost var rules := acc.Rules();
      var p := acc.firstDown;
      assert rules[0..] == rules;
      while p != null
        invariant 0 <= i <= |acc.nodes|
        invariant p == if i < |acc.nodes| then acc.nodes[i] else null
        invariant Verdict(Value(), m, ip, ssl) == Verdict(Policy(rules[i..], acc.defaultIsAllow), m, ip, ssl)
        decreases |acc.nodes| - i
      {
        assert acc.LinkedAt(acc.nodes, i) && rules[i..][0] == p.rule && rules[i..][1..] == rules[i + 1..];
        if m(p.rule.addr, p.rule.mask, ip) && (p.rule.ssl == -1 || p.rule.ssl == ssl) { return p.rule.allow; }
        i := i + 1;
        p := p.right;
      }
      return acc.defaultIsAllow;
    }
  }

  /** Any run of operations keeps the siblings well linked and does to the linked structure what it does to
      the plain list of rules. */
  method Run(slot: Slot, ops: seq<Op>)
    requires slot.Valid()
    modifies slot.Repr()
    ensures slot.Valid() && fresh(slot.Repr() - old(slot.Repr())) && (old(slot.NoIdleNode()) ==> slot.NoIdleNode())
    ensures slot.Value() == ApplyAll(old(slot.Value()), ops)
  {
    hide Apply;
    assert ops[0..] == ops;
    for i := 0 to |ops|
      invariant slot.Valid() && fresh(slot.Repr() - old(slot.Repr())) && (old(slot.NoIdleNode()) ==> slot.NoIdleNode())
      invariant ApplyAll(slot.Value(), ops[i..]) == ApplyAll(old(slot.Value()), ops)
    {
      assert ops[i..][1..] == ops[i + 1..];
      var r;
      match ops[i] {
        case Add(rule) => slot.AddIp(rule.addr, rule.mask, rule.ssl, rule.allow);
        case Delete(n) => r := slot.DeleteIpRule(n);
        case Forward(n) => r := slot.ForwardIpRule(n);
        case Backward(n) => r := slot.BackwardIpRule(n);
        case SetDefault(v) => slot.SetDefaultAllow(v);
      }
    }
  }
}
