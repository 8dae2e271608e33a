/** Choosing the leader among sequential lock nodes (the pure part of elector.go). */
module Sequences {
  import opened Types
  import opened Decimal

  const LOCK: string := "-lock-"

  /** An optional minus sign and at least one digit. */
  predicate IsNumeral(s: string) {
    var digits := if s != "" && s[0] == '-' then s[1..] else s;
    digits != "" && AllDigits(digits)
  }

  /** The pattern `.*-lock-(-?\\d+)$` matches with its "-lock-" at position `k`. */
  predicate MatchesAt(node: string, k: nat) {
    k + |LOCK| <= |node| && node[k..k + |LOCK|] == LOCK && IsNumeral(node[k + |LOCK|..])
  }

  /** The pattern's greedy prefix: the last position that matches. */
  function Search(node: string, k: nat): Option<nat> {
    if MatchesAt(node, k) then Some(k) else if k == 0 then None else Search(node, k - 1)
  }

  /** sequencePart */
  function SequencePart(node: string): Option<int> {
    if node == "" then None
    else match Search(node, |node|)
         case None => None
         case Some(k) => if k + |LOCK| <= |node| then Atoi(node[k + |LOCK|..]) else None
  }

  /** A lock node as ZooKeeper names it: any prefix, "-lock-" and the padded counter. */
  function LockName(prefix: string, n: int): string {
    prefix + LOCK + Padded(n)
  }

  lemma PaddedIsNumeral(n: int)
    ensures IsNumeral(Padded(n))
    ensures forall c :: c in Padded(n) ==> IsDigit(c) || c == '-'
  {
    if n < 0 {
      NumberOfZeroFilled(-n, 9);
      assert Padded(n)[1..] == ZeroFilled(Digits(-n), 9);
    } else {
      NumberOfZeroFilled(n, 10);
      assert IsDigit(Padded(n)[0]);
    }
  }

  lemma OnlyOneL(suffix: string, at: nat)
    requires (forall c :: c in suffix ==> IsDigit(c) || c == '-') && 2 <= at < |LOCK + suffix|
    ensures (LOCK + suffix)[at] != 'l'
  {
    if at >= |LOCK| {
      assert (LOCK + suffix)[at] == suffix[at - |LOCK|];
      assert suffix[at - |LOCK|] in suffix;
    }
  }

  lemma NoLaterMatch(prefix: string, suffix: string, k: nat)
    requires (forall c :: c in suffix ==> IsDigit(c) || c == '-') && k > |prefix|
    ensures !MatchesAt(prefix + LOCK + suffix, k)
  {
    hide IsNumeral;
    var node := prefix + LOCK + suffix;
    if MatchesAt(node, k) {
      assert node[k..k + |LOCK|][1] == node[k + 1];
      assert node == prefix + (LOCK + suffix);
      OnlyOneL(suffix, k + 1 - |prefix|);
    }
  }

  lemma {:induction false} SearchFinds(prefix: string, suffix: string, k: nat)
    requires (forall c :: c in suffix ==> IsDigit(c) || c == '-') && IsNumeral(suffix) && k >= |prefix|
    ensures Search(prefix + LOCK + suffix, k) == Some(|prefix|)
  {
    hide IsNumeral;
    var node := prefix + LOCK + suffix;
    if k > |prefix| {
      NoLaterMatch(prefix, suffix, k);
      SearchFinds(prefix, suffix, k - 1);
    } else {
      assert node[k..k + |LOCK|] == LOCK && node[k + |LOCK|..] == suffix;
    }
  }

  /** What follows the marker is what is read, if it is a numeral. */
  lemma PartIsSuffix(prefix: string, suffix: string)
    requires IsNumeral(suffix)
    ensures SequencePart(prefix + LOCK + suffix) == Atoi(suffix)
  {
    var node := prefix + LOCK + suffix;
    forall c | c in suffix ensures IsDigit(c) || c == '-' {
      if suffix[0] == '-' {
        assert suffix == [suffix[0]] + suffix[1..];
      }
    }
    SearchFinds(prefix, suffix, |node|);
    assert node[|prefix| + |LOCK|..] == suffix;
  }

  /** The name ends in "-lock-", perhaps a minus sign, and digits that spell `n`, an int64. */
  ghost predicate Spells(node: string, prefix: string, minus: bool, digits: string, n: int) {
    && node == prefix + "-lock-" + (if minus then "-" else "") + digits
    && digits != "" && AllDigits(digits) && n == (if minus then -(NumberOf(digits) as int) else NumberOf(digits))
    && -0x8000_0000_0000_0000 <= n <= 0x7FFF_FFFF_FFFF_FFFF
  }

  lemma {:induction false} SearchMatches(node: string, k: nat)
    ensures Search(node, k).Some? ==> MatchesAt(node, Search(node, k).value)
  {
    hide MatchesAt;
    if !MatchesAt(node, k) && k > 0 {
      SearchMatches(node, k - 1);
    }
  }

  /** A name has a sequence exactly when it ends in the marker and a numeral of 64 bits, and then that. */
  lemma SequencePartIff(node: string, n: int)
    ensures SequencePart(node) == Some(n) <==> exists prefix, minus, digits :: Spells(node, prefix, minus, digits, n)
  {
    hide *;
    if SequencePart(node) == Some(n) {
      var prefix, minus, digits := PartSpells(node, n);
    }
    if prefix, minus, digits :| Spells(node, prefix, minus, digits, n) {
      SpelledPart(node, prefix, minus, digits, n);
    }
  }

  lemma PartSpells(node: string, n: int) returns (prefix: string, minus: bool, digits: string)
    requires SequencePart(node) == Some(n)
    ensures Spells(node, prefix, minus, digits, n)
  {
    SearchMatches(node, |node|);
    var k := Search(node, |node|).value;
    var suffix := node[k + |LOCK|..];
    hide Search;
    prefix, minus := node[..k], suffix[0] == '-';
    assert node == prefix + LOCK + suffix;
    if minus {
      digits := suffix[1..];
      assert suffix == "-" + digits;
      assert node == prefix + "-lock-" + "-" + digits;
    } else {
      digits := suffix;
      assert IsDigit(suffix[0]);
      assert node == prefix + "-lock-" + "" + digits;
    }
  }

  lemma SpelledPart(node: string, prefix: string, minus: bool, digits: string, n: int)
    requires Spells(node, prefix, minus, digits, n)
    ensures SequencePart(node) == Some(n)
  {
    assert IsDigit(digits[0]);
    if minus {
      var suffix := "-" + digits;
      assert suffix[0] == '-' && suffix[1..] == digits;
      assert node == prefix + LOCK + suffix;
      PartIsSuffix(prefix, suffix);
      assert Atoi(suffix) == Some(n);
    } else {
      assert node == prefix + LOCK + digits;
      PartIsSuffix(prefix, digits);
      assert Atoi(digits) == Some(n);
    }
    hide *;
  }

  /**
   Parsing undoes naming: whatever the prefix, even one that itself contains "-lock-", the
   sequence of a lock node is the counter it was named with. So its full path and its bare child
   name give the same number.
   */
  lemma SequenceOfLockName(prefix: string, n: int)
    requires INT32_MIN <= n <= INT32_MAX
    ensures SequencePart(LockName(prefix, n)) == Some(n)
  {
    PaddedIsNumeral(n);
    PartIsSuffix(prefix, Padded(n));
    AtoiPadded(n);
  }

  lemma PathAndNameAgree(basePath: string, prefix: string, n: int)
    requires INT32_MIN <= n <= INT32_MAX
    ensures SequencePart(basePath + "/" + LockName(prefix, n)) == SequencePart(LockName(prefix, n)) == Some(n)
  {
    hide SequencePart;
    hide Padded;
    SequenceOfLockName(prefix, n);
    SequenceOfLockName(basePath + "/" + prefix, n);
    assert basePath + "/" + LockName(prefix, n) == LockName(basePath + "/" + prefix, n);
  }

  // ---------------------------------------------------------------- sorting and looking up

  predicate AllParse(children: seq<string>) {
    forall child :: child in children ==> SequencePart(child).Some?
  }

  function SequenceOf(child: string): int
    requires SequencePart(child).Some?
  {
    SequencePart(child).value
  }

  function SequencesOf(children: seq<string>): seq<int>
    requires AllParse(children)
  {
    seq(|children|, i requires 0 <= i < |children| => SequenceOf(children[i]))
  }

  ghost predicate Ascending(s: seq<int>) {
    forall i, j :: 0 <= i < j < |s| ==> s[i] <= s[j]
  }

  lemma HeadLeast(s: seq<int>)
    requires Ascending(s) && s != []
    ensures forall y :: y in s ==> s[0] <= y
  {
  }

  lemma ConsAscending(x: int, s: seq<int>)
    requires Ascending(s) && forall y :: y in s ==> x <= y
    ensures Ascending([x] + s)
  {
    var r := [x] + s;
    forall i, j | 0 <= i < j < |r| ensures r[i] <= r[j] {
      assert r[j] == s[j - 1] && s[j - 1] in s;
      assert i > 0 ==> r[i] == s[i - 1];
    }
  }

  function Inserted(x: int, s: seq<int>): (r: seq<int>)
    requires Ascending(s)
    ensures Ascending(r) && forall y :: y in r <==> y == x || y in s
  {
    if s == [] || x <= s[0] then [x] + s
    else
      var rest := Inserted(x, s[1..]);
      HeadLeast(s);
      ConsAscending(s[0], rest);
      [s[0]] + rest
  }

  /** sort.Slice with < */
  function Sorted(s: seq<int>): (r: seq<int>)
    ensures Ascending(r)
  {
    if s == [] then [] else Inserted(s[0], Sorted(s[1..]))
  }

  lemma {:induction false} InsertedPermutes(x: int, s: seq<int>)
    requires Ascending(s)
    ensures multiset(Inserted(x, s)) == multiset{x} + multiset(s)
  {
    if s != [] && x > s[0] {
      assert s == [s[0]] + s[1..];
      InsertedPermutes(x, s[1..]);
    }
  }

  lemma {:induction false} SortedPermutes(s: seq<int>)
    ensures multiset(Sorted(s)) == multiset(s)
  {
    if s != [] {
      assert s == [s[0]] + s[1..];
      SortedPermutes(s[1..]);
      InsertedPermutes(s[0], Sorted(s[1..]));
    }
  }

  /** For each sequence, the child listed last with it. */
  ghost predicate LooksUp(lookup: map<int, string>, children: seq<string>)
    requires AllParse(children)
  {
    && lookup.Keys == (set child | child in children :: SequenceOf(child))
    && forall i :: 0 <= i < |children| && IsLast(children, i) ==> lookup[SequenceOf(children[i])] == children[i]
  }

  /** No later child has the sequence of child `i`. */
  ghost predicate IsLast(children: seq<string>, i: nat)
    requires AllParse(children) && i < |children|
  {
    forall j :: i < j < |children| ==> SequenceOf(children[j]) != SequenceOf(children[i])
  }

  method SortedChildrenSequences(children: seq<string>) returns (r: Option<(seq<int>, map<int, string>)>)
    ensures r.Some? <==> AllParse(children)
    ensures r.Some? ==>
              && Ascending(r.value.0) && multiset(r.value.0) == multiset(SequencesOf(children))
              && LooksUp(r.value.1, children)
  {
    var sequences: seq<int>, lookup: map<int, string> := [], map[];
    for i := 0 to |children|
      invariant AllParse(children[..i]) && sequences == SequencesOf(children[..i])
      invariant LooksUp(lookup, children[..i])
    {
      var part := SequencePart(children[i]);
      assert children[i] in children;
      if part.None? {
        return None;
      }
      AddChild(lookup, children, i);
      assert children[..i + 1] == children[..i] + [children[i]];
      sequences := sequences + [part.value];
      lookup := lookup[part.value := children[i]];
    }
    assert children[..|children|] == children;
    SortedPermutes(sequences);
    return Some((Sorted(sequences), lookup));
  }

  lemma AddChild(lookup: map<int, string>, children: seq<string>, i: nat)
    requires i < |children| && AllParse(children[..i]) && LooksUp(lookup, children[..i])
    requires SequencePart(children[i]).Some?
    ensures AllParse(children[..i + 1])
    ensures LooksUp(lookup[SequenceOf(children[i]) := children[i]], children[..i + 1])
  {
    var before, after := children[..i], children[..i + 1];
    assert after == before + [children[i]];
    var lookup' := lookup[SequenceOf(children[i]) := children[i]];
    forall j | 0 <= j < |after| && IsLast(after, j) ensures lookup'[SequenceOf(after[j])] == after[j] {
      if j < i {
        assert after[j] == before[j];
        forall l | j < l < |before| ensures SequenceOf(before[l]) != SequenceOf(before[j]) {
          assert before[l] == after[l];
        }
        assert IsLast(before, j);
        assert SequenceOf(after[i]) != SequenceOf(after[j]);
      }
    }
  }

  // ---------------------------------------------------------------- the leader

  /** What an elector makes of one listing of the children. */
  datatype Verdict = Verdict(isLeader: bool, leaderNode: string)

  /** Child `i` has the lowest sequence, and none after it has the same. */
  ghost predicate Leads(children: seq<string>, i: nat)
    requires AllParse(children) && i < |children|
  {
    && (forall j :: 0 <= j < |children| ==> SequenceOf(children[i]) <= SequenceOf(children[j]))
    && IsLast(children, i)
  }

  /** The last of the children with the lowest sequence, found by scanning. */
  function Leading(children: seq<string>): (i: nat)
    requires AllParse(children) && children != []
    ensures i < |children| && Leads(children, i)
  {
    if |children| == 1 then 0
    else
      assert children == [children[0]] + children[1..];
      var i := Leading(children[1..]);
      assert forall j :: 0 < j < |children| ==> children[j] == children[1..][j - 1];
      if SequenceOf(children[0]) < SequenceOf(children[i + 1]) then 0 else i + 1
  }

  /** determineLeader: none when there are no children or a name does not parse. */
  function DetermineLeader(node: string, children: seq<string>): Option<Verdict> {
    if children == [] || !AllParse(children) || SequencePart(node).None? then None
    else
      var leader := children[Leading(children)];
      Some(Verdict(SequenceOf(node) == SequenceOf(leader), leader))
  }

  lemma LeadsUnique(children: seq<string>, i: nat, j: nat)
    requires AllParse(children) && i < |children| && j < |children| && Leads(children, i) && Leads(children, j)
    ensures i == j
  {
    assert SequenceOf(children[i]) == SequenceOf(children[j]);
  }

  /** Sorting and looking up the first sequence finds the same leader. */
  method ChooseLeader(node: string, children: seq<string>) returns (r: Option<Verdict>)
    ensures r == DetermineLeader(node, children)
  {
    if |children| == 0 {
      return None;
    }
    var found := SortedChildrenSequences(children);
    if found.None? {
      return None;
    }
    var (sequences, lookup) := found.value;
    var mine := SequencePart(node);
    if mine.None? {
      return None;
    }
    FirstIsLeader(children, sequences, lookup);
    var leaderSeq := sequences[0];
    return Some(Verdict(mine.value == leaderSeq, lookup[leaderSeq]));
  }

  lemma FirstIsLeader(children: seq<string>, sequences: seq<int>, lookup: map<int, string>)
    requires AllParse(children) && children != [] && LooksUp(lookup, children)
    requires Ascending(sequences) && multiset(sequences) == multiset(SequencesOf(children))
    ensures |sequences| > 0 && sequences[0] in lookup
    ensures sequences[0] == SequenceOf(children[Leading(children)])
    ensures lookup[sequences[0]] == children[Leading(children)]
  {
    var all, i := SequencesOf(children), Leading(children);
    assert |multiset(sequences)| == |multiset(all)|;
    assert all[i] in multiset(sequences);
    assert sequences[0] in multiset(all);
    var k :| 0 <= k < |sequences| && sequences[k] == all[i];
    var j :| 0 <= j < |all| && all[j] == sequences[0];
    assert SequenceOf(children[j]) == sequences[0];
  }

  ghost predicate DistinctSequences(children: seq<string>)
    requires AllParse(children)
  {
    forall i, j :: 0 <= i < j < |children| ==> SequenceOf(children[i]) != SequenceOf(children[j])
  }

  /** The leader is a listed child, no child has a lower sequence, and leadership is having that sequence. */
  lemma LeaderIsLowest(node: string, children: seq<string>)
    requires DetermineLeader(node, children).Some?
    ensures AllParse(children) && SequencePart(node).Some?
    ensures var v := DetermineLeader(node, children).value;
            && v.leaderNode in children
            && (forall child :: child in children ==> SequenceOf(v.leaderNode) <= SequenceOf(child))
            && (v.isLeader <==> SequenceOf(node) == SequenceOf(v.leaderNode))
  {
  }

  /** A leader is determined exactly when there are children and all names parse, the own one included. */
  lemma DeterminedIff(node: string, children: seq<string>)
    ensures DetermineLeader(node, children).Some? <==>
            children != [] && AllParse(children) && SequencePart(node).Some?
  {
  }

  /**
   Among nodes named as ZooKeeper names them there is always a leader, the one of lowest counter, and a
   node finds itself leading exactly when its own counter is the lowest.
   */
  lemma LockNamesDecide(prefix: string, n: int, prefixes: seq<string>, numbers: seq<int>)
    requires |prefixes| == |numbers| > 0 && INT32_MIN <= n <= INT32_MAX
    requires forall i :: 0 <= i < |numbers| ==> INT32_MIN <= numbers[i] <= INT32_MAX
    ensures var children := LockNames(prefixes, numbers);
            var r := DetermineLeader(LockName(prefix, n), children);
            && r.Some?
            && (r.value.isLeader <==> n in numbers && forall m :: m in numbers ==> n <= m)
            && exists i :: 0 <= i < |numbers| && r.value.leaderNode == children[i]
                           && forall m :: m in numbers ==> numbers[i] <= m
  {
    var node, children := LockName(prefix, n), LockNames(prefixes, numbers);
    SequenceOfLockName(prefix, n);
    forall i | 0 <= i < |numbers| ensures SequencePart(children[i]) == Some(numbers[i]) {
      SequenceOfLockName(prefixes[i], numbers[i]);
    }
    hide *;
    LeaderAmong(node, n, children, numbers);
  }

  lemma LeaderAmong(node: string, n: int, children: seq<string>, numbers: seq<int>)
    requires SequencePart(node) == Some(n) && |children| == |numbers| > 0
    requires forall i :: 0 <= i < |numbers| ==> SequencePart(children[i]) == Some(numbers[i])
    ensures var r := DetermineLeader(node, children);
            && r.Some?
            && (r.value.isLeader <==> n in numbers && forall m :: m in numbers ==> n <= m)
            && exists i :: 0 <= i < |numbers| && r.value.leaderNode == children[i]
                           && forall m :: m in numbers ==> numbers[i] <= m
  {
    hide SequencePart;
    DeterminedIff(node, children);
    LeaderIsLowest(node, children);
    hide DetermineLeader;
    var leader := DetermineLeader(node, children).value.leaderNode;
    var i :| 0 <= i < |children| && children[i] == leader;
    assert numbers[i] in numbers && SequenceOf(leader) == numbers[i] && SequenceOf(node) == n;
    forall m | m in numbers ensures numbers[i] <= m {
      var j :| 0 <= j < |numbers| && numbers[j] == m;
      assert children[j] in children;
    }
  }

  function LockNames(prefixes: seq<string>, numbers: seq<int>): (children: seq<string>)
    requires |prefixes| == |numbers|
    ensures |children| == |numbers|
    ensures forall i :: 0 <= i < |numbers| ==> children[i] == LockName(prefixes[i], numbers[i])
  {
    seq(|numbers|, i requires 0 <= i < |numbers| => LockName(prefixes[i], numbers[i]))
  }

  /** With distinct sequences the verdict does not depend on the order of the listing. */
  lemma OrderDoesNotMatter(node: string, a: seq<string>, b: seq<string>)
    requires AllParse(a) && DistinctSequences(a) && (forall child :: child in a <==> child in b)
    ensures DetermineLeader(node, a) == DetermineLeader(node, b)
  {
    assert a != [] ==> a[0] in b;
    assert b != [] ==> b[0] in a;
    if a != [] {
      var x, y := a[Leading(a)], b[Leading(b)];
      assert x in b && y in a;
      var i :| 0 <= i < |a| && a[i] == y;
      assert SequenceOf(x) == SequenceOf(y);
    }
  }

  /** Electors that see the same listing name the same leader, and two that claim it have the same sequence. */
  lemma OneListingOneLeader(node: string, other: string, children: seq<string>)
    requires DetermineLeader(node, children).Some? && DetermineLeader(other, children).Some?
    ensures var v, w := DetermineLeader(node, children).value, DetermineLeader(other, children).value;
            v.leaderNode == w.leaderNode && (v.isLeader && w.isLeader ==> SequencePart(node) == SequencePart(other))
  {
  }
}
