/** The log checker of the transaction tier: replicas of a partition must have executed the same transactions in
    the same order, and the orders of any two partitions must be explained by one serial order. */
module SerialLogs {
  import opened Graphs

  type Txn = int
  type Log = seq<Txn>

  ghost predicate NoDup(a: Log) {
    forall i, j :: 0 <= i < j < |a| ==> a[i] != a[j]
  }

  /** `x` occurs before `y`. */
  ghost predicate Before(a: Log, x: Txn, y: Txn) {
    exists i, j :: 0 <= i < j < |a| && a[i] == x && a[j] == y
  }

  /** `a` can be obtained from `c` by leaving out elements. */
  predicate Subsequence(a: Log, c: Log) {
    a == [] || (c != [] && if a[0] == c[0] then Subsequence(a[1..], c[1..]) else Subsequence(a, c[1..]))
  }

  /** Some serial order explains both logs. */
  ghost predicate Serializable(a: Log, b: Log) {
    exists c :: NoDup(c) && Subsequence(a, c) && Subsequence(b, c)
  }

  /** No two transactions are executed in opposite orders. */
  ghost predicate Agree(a: Log, b: Log) {
    forall x, y :: !(Before(a, x, y) && Before(b, y, x))
  }

  // -------------------- orders and subsequences --------------------

  lemma {:induction false} SubsequenceMember(a: Log, c: Log, x: Txn)
    requires Subsequence(a, c) && x in a
    ensures x in c
  {
    if a[0] == c[0] {
      if x != a[0] {
        assert x in a[1..];
        SubsequenceMember(a[1..], c[1..], x);
      }
    } else {
      SubsequenceMember(a, c[1..], x);
    }
  }

  lemma BeforeTail(c: Log, x: Txn, y: Txn)
    requires c != []
    ensures Before(c[1..], x, y) ==> Before(c, x, y)
    ensures x == c[0] && y in c[1..] ==> Before(c, x, y)
  {
  }

  lemma BeforeHead(a: Log, x: Txn, y: Txn)
    requires Before(a, x, y)
    ensures (x == a[0] && y in a[1..]) || Before(a[1..], x, y)
  {
  }

  /** A subsequence keeps the order. */
  lemma {:induction false} SubsequenceBefore(a: Log, c: Log, x: Txn, y: Txn)
    requires Subsequence(a, c) && Before(a, x, y)
    ensures Before(c, x, y)
  {
    if a[0] == c[0] {
      BeforeHead(a, x, y);
      if Before(a[1..], x, y) {
        SubsequenceBefore(a[1..], c[1..], x, y);
      } else {
        SubsequenceMember(a[1..], c[1..], y);
      }
    } else {
      SubsequenceBefore(a, c[1..], x, y);
    }
    BeforeTail(c, x, y);
  }

  lemma OneOrder(c: Log, x: Txn, y: Txn)
    requires NoDup(c) && Before(c, x, y)
    ensures !Before(c, y, x)
  {
  }

  // -------------------- the serial order --------------------

  /** A serial order that explains two logs that agree. */
  function Merge(a: Log, b: Log): Log
    decreases |a| + |b|
  {
    if a == [] then b
    else if b == [] then a
    else if a[0] !in b then [a[0]] + Merge(a[1..], b)
    else if b[0] !in a then [b[0]] + Merge(a, b[1..])
    else [a[0]] + Merge(a[1..], b[1..])
  }

  lemma AgreeTails(a: Log, b: Log)
    requires Agree(a, b)
    ensures a != [] ==> Agree(a[1..], b)
    ensures b != [] ==> Agree(a, b[1..])
    ensures a != [] && b != [] ==> Agree(a[1..], b[1..])
  {
  }

  /** Logs that agree and whose heads each occur in the other begin with the same transaction. */
  lemma SameHead(a: Log, b: Log)
    requires Agree(a, b) && a != [] && b != [] && a[0] in b && b[0] in a
    ensures a[0] == b[0]
  {
    if a[0] != b[0] {
      assert a == [a[0]] + a[1..] && b == [b[0]] + b[1..];
      BeforeTail(a, a[0], b[0]);
      BeforeTail(b, b[0], a[0]);
    }
  }

  lemma {:induction false} MergeMember(a: Log, b: Log, x: Txn)
    requires Agree(a, b)
    ensures x in Merge(a, b) <==> x in a || x in b
    decreases |a| + |b|
  {
    if a != [] && b != [] {
      assert a == [a[0]] + a[1..] && b == [b[0]] + b[1..];
      AgreeTails(a, b);
      if a[0] !in b {
        MergeMember(a[1..], b, x);
      } else if b[0] !in a {
        MergeMember(a, b[1..], x);
      } else {
        SameHead(a, b);
        MergeMember(a[1..], b[1..], x);
      }
    }
  }

  lemma NoDupCons(x: Txn, c: Log)
    requires NoDup(c) && x !in c
    ensures NoDup([x] + c)
  {
  }

  lemma {:induction false} MergeNoDup(a: Log, b: Log)
    requires NoDup(a) && NoDup(b) && Agree(a, b)
    ensures NoDup(Merge(a, b))
    decreases |a| + |b|
  {
    if a != [] && b != [] {
      AgreeTails(a, b);
      assert a[0] !in a[1..] && b[0] !in b[1..];
      if a[0] !in b {
        MergeNoDup(a[1..], b);
        MergeMember(a[1..], b, a[0]);
        NoDupCons(a[0], Merge(a[1..], b));
      } else if b[0] !in a {
        MergeNoDup(a, b[1..]);
        MergeMember(a, b[1..], b[0]);
        NoDupCons(b[0], Merge(a, b[1..]));
      } else {
        SameHead(a, b);
        MergeNoDup(a[1..], b[1..]);
        MergeMember(a[1..], b[1..], a[0]);
        NoDupCons(a[0], Merge(a[1..], b[1..]));
      }
    }
  }

  lemma {:induction false} Reflexive(a: Log)
    ensures Subsequence(a, a)
  {
    if a != [] {
      Reflexive(a[1..]);
    }
  }

  lemma SubsequenceCons(x: Txn, a: Log, c: Log)
    ensures a != [] && a[0] == x && Subsequence(a[1..], c) ==> Subsequence(a, [x] + c)
    ensures x !in a && Subsequence(a, c) ==> Subsequence(a, [x] + c)
  {
  }

  lemma {:induction false} MergeExplains(a: Log, b: Log)
    requires Agree(a, b)
    ensures Subsequence(a, Merge(a, b)) && Subsequence(b, Merge(a, b))
    decreases |a| + |b|
  {
    if a == [] {
      Reflexive(b);
    } else if b == [] {
      Reflexive(a);
    } else {
      AgreeTails(a, b);
      if a[0] !in b {
        MergeExplains(a[1..], b);
        SubsequenceCons(a[0], a, Merge(a[1..], b));
        SubsequenceCons(a[0], b, Merge(a[1..], b));
      } else if b[0] !in a {
        MergeExplains(a, b[1..]);
        SubsequenceCons(b[0], a, Merge(a, b[1..]));
        SubsequenceCons(b[0], b, Merge(a, b[1..]));
      } else {
        SameHead(a, b);
        MergeExplains(a[1..], b[1..]);
        SubsequenceCons(a[0], a, Merge(a[1..], b[1..]));
        SubsequenceCons(a[0], b, Merge(a[1..], b[1..]));
      }
    }
  }

  /** Two logs without repetitions have a serial order if and only if they agree. */
  lemma SerializableIsAgree(a: Log, b: Log)
    requires NoDup(a) && NoDup(b)
    ensures Serializable(a, b) <==> Agree(a, b)
  {
    if Agree(a, b) {
      MergeNoDup(a, b);
      MergeExplains(a, b);
    }
    if Serializable(a, b) {
      var c :| NoDup(c) && Subsequence(a, c) && Subsequence(b, c);
      forall x, y ensures !(Before(a, x, y) && Before(b, y, x)) {
        if Before(a, x, y) && Before(b, y, x) {
          SubsequenceBefore(a, c, x, y);
          SubsequenceBefore(b, c, y, x);
          OneOrder(c, x, y);
        }
      }
    }
  }

  // -------------------- any number of logs --------------------

  ghost predicate AllNoDup(logs: seq<Log>) {
    forall i :: 0 <= i < |logs| ==> NoDup(logs[i])
  }

  ghost predicate PairsSerializable(logs: seq<Log>) {
    forall i, j :: 0 <= i < j < |logs| ==> Serializable(logs[i], logs[j])
  }

  /** One serial order explains all logs. */
  ghost predicate Joint(logs: seq<Log>) {
    exists c :: NoDup(c) && Explains(c, logs)
  }

  ghost predicate Explains(c: Log, logs: seq<Log>) {
    forall i :: 0 <= i < |logs| ==> Subsequence(logs[i], c)
  }

  ghost predicate SomeBefore(logs: seq<Log>, x: Txn, y: Txn) {
    exists i :: 0 <= i < |logs| && Before(logs[i], x, y)
  }

  function Txns(logs: seq<Log>): set<Txn> {
    set i, x | 0 <= i < |logs| && x in logs[i] :: x
  }

  /** The graph in which the parents of a transaction are those that some log executes before it. */
  ghost function Precedence(logs: seq<Log>): Edges<Txn> {
    var all := Txns(logs);
    map y | y in all :: Vertex(set x | x in all && SomeBefore(logs, x, y), set x | x in all && SomeBefore(logs, y, x))
  }

  lemma InTxns(logs: seq<Log>, i: nat, x: Txn)
    requires i < |logs| && x in logs[i]
    ensures x in Txns(logs)
  {
  }

  lemma SomeBeforeTxns(logs: seq<Log>, x: Txn, y: Txn)
    requires SomeBefore(logs, x, y)
    ensures x in Txns(logs) && y in Txns(logs)
  {
    var i :| 0 <= i < |logs| && Before(logs[i], x, y);
    assert x in logs[i] && y in logs[i];
  }

  lemma PrecedenceParents(logs: seq<Log>, x: Txn, y: Txn)
    ensures x in Parents(Precedence(logs), y) <==> SomeBefore(logs, x, y)
    ensures y in Children(Precedence(logs), x) <==> SomeBefore(logs, x, y)
    ensures x in Parents(Precedence(logs), y) ==> x in Precedence(logs)
  {
    if SomeBefore(logs, x, y) {
      SomeBeforeTxns(logs, x, y);
    }
  }

  lemma PrecedenceWellFormed(logs: seq<Log>)
    ensures WellFormed(Precedence(logs))
  {
    var g := Precedence(logs);
    forall x, y ensures (x in Parents(g, y) <==> y in Children(g, x)) && (x in Parents(g, y) ==> x in g) {
      PrecedenceParents(logs, x, y);
    }
  }

  // A joint order gives an acyclic precedence.

  lemma BeforeTrans(c: Log, x: Txn, y: Txn, z: Txn)
    requires NoDup(c) && Before(c, x, y) && Before(c, y, z)
    ensures Before(c, x, z)
  {
    var i, j :| 0 <= i < j < |c| && c[i] == x && c[j] == y;
    var k, l :| 0 <= k < l < |c| && c[k] == y && c[l] == z;
    assert j == k;
  }

  lemma {:induction false} PathBefore(logs: seq<Log>, c: Log, p: seq<Txn>)
    requires NoDup(c) && Explains(c, logs) && Path(Precedence(logs), p) && |p| >= 2
    ensures Before(c, p[0], p[|p| - 1])
    decreases |p|
  {
    var n := |p| - 2;
    assert p[n] in Parents(Precedence(logs), p[n + 1]);
    PrecedenceParents(logs, p[n], p[n + 1]);
    var i :| 0 <= i < |logs| && Before(logs[i], p[n], p[n + 1]);
    SubsequenceBefore(logs[i], c, p[n], p[n + 1]);
    if n > 0 {
      PathBefore(logs, c, p[..n + 1]);
      BeforeTrans(c, p[0], p[n], p[n + 1]);
    }
  }

  lemma JointAcyclic(logs: seq<Log>, c: Log)
    requires NoDup(c) && Explains(c, logs)
    ensures Acyclic(Precedence(logs))
  {
    forall p | Path(Precedence(logs), p) && |p| >= 2 ensures p[0] != p[|p| - 1] {
      PathBefore(logs, c, p);
    }
  }

  lemma {:induction false} SubsequenceNoDup(a: Log, c: Log)
    requires NoDup(c) && Subsequence(a, c)
    ensures NoDup(a)
  {
    if a != [] {
      if a[0] == c[0] {
        SubsequenceNoDup(a[1..], c[1..]);
        if a[0] in a[1..] {
          SubsequenceMember(a[1..], c[1..], a[0]);
        }
        assert a == [a[0]] + a[1..];
      } else {
        SubsequenceNoDup(a, c[1..]);
      }
    }
  }

  // An acyclic precedence gives a joint order: first executions are taken out one at a time.

  lemma {:induction false} Line(g: Edges<Txn>, s: set<Txn>) returns (c: Log)
    requires WellFormed(g) && Acyclic(g)
    ensures NoDup(c) && (forall x :: x in c <==> x in s)
    ensures forall x, y :: x in s && y in s && x in Parents(g, y) ==> Before(c, x, y)
    decreases |s|
  {
    if s == {} {
      c := [];
    } else {
      var v := First(g, s);
      var d := Line(g, s - {v});
      c := [v] + d;
      NoDupCons(v, d);
      assert c[1..] == d;
      forall x, y | x in s && y in s && x in Parents(g, y) ensures Before(c, x, y) {
        BeforeTail(c, x, y);
      }
    }
  }

  /** A log is a subsequence of an order that holds its transactions in the same order. */
  lemma {:induction false} InOrderSubsequence(a: Log, c: Log)
    requires NoDup(a) && NoDup(c) && forall i :: 0 <= i < |a| ==> a[i] in c
    requires forall x, y :: Before(a, x, y) ==> Before(c, x, y)
    ensures Subsequence(a, c)
    decreases |c|
  {
    if a != [] {
      assert a[0] in c && c == [c[0]] + c[1..];
      forall x, y | Before(a, x, y) && c[0] != x ensures Before(c[1..], x, y) {
        BeforeHead(c, x, y);
      }
      if a[0] == c[0] {
        forall x, y | Before(a[1..], x, y) ensures Before(c[1..], x, y) {
          BeforeTail(a, x, y);
          assert x in a[1..] && x != a[0];
        }
        assert forall i :: 0 <= i < |a[1..]| ==> a[1..][i] == a[i + 1] && a[i + 1] in c && a[i + 1] != a[0];
        InOrderSubsequence(a[1..], c[1..]);
      } else {
        NotAtHead(a, c);
        InOrderSubsequence(a, c[1..]);
      }
    }
  }

  lemma NotAtHead(a: Log, c: Log)
    requires a != [] && c != [] && NoDup(c) && a[0] != c[0]
    requires forall x, y :: Before(a, x, y) ==> Before(c, x, y)
    ensures c[0] !in a
  {
    if c[0] in a {
      assert a == [a[0]] + a[1..];
      BeforeTail(a, a[0], c[0]);
    }
  }

  lemma AcyclicJoint(logs: seq<Log>)
    requires AllNoDup(logs) && Acyclic(Precedence(logs))
    ensures Joint(logs)
  {
    var g := Precedence(logs);
    PrecedenceWellFormed(logs);
    var c := Line(g, Txns(logs));
    forall i | 0 <= i < |logs| ensures Subsequence(logs[i], c) {
      forall x, y | Before(logs[i], x, y) ensures Before(c, x, y) {
        assert SomeBefore(logs, x, y);
        PrecedenceParents(logs, x, y);
        SomeBeforeTxns(logs, x, y);
      }
      forall j | 0 <= j < |logs[i]| ensures logs[i][j] in c {
        InTxns(logs, i, logs[i][j]);
      }
      InOrderSubsequence(logs[i], c);
    }
    assert Explains(c, logs);
  }

  /** Any number of logs have one serial order if and only if none repeats a transaction and no cycle of
      transactions is executed each before the next in some log. */
  lemma JointIsAcyclic(logs: seq<Log>)
    ensures Joint(logs) <==> AllNoDup(logs) && Acyclic(Precedence(logs))
  {
    if Joint(logs) {
      var c :| NoDup(c) && Explains(c, logs);
      JointAcyclic(logs, c);
      forall i | 0 <= i < |logs| ensures NoDup(logs[i]) {
        SubsequenceNoDup(logs[i], c);
      }
    }
    if AllNoDup(logs) && Acyclic(Precedence(logs)) {
      AcyclicJoint(logs);
    }
  }

  /** One order for all is one for every pair, and for at most two logs the converse holds. */
  lemma JointPairs(logs: seq<Log>)
    ensures Joint(logs) ==> AllNoDup(logs) && PairsSerializable(logs)
    ensures |logs| <= 2 && AllNoDup(logs) && PairsSerializable(logs) ==> Joint(logs)
  {
    JointIsAcyclic(logs);
    if Joint(logs) {
      var c :| NoDup(c) && Explains(c, logs);
      forall i, j | 0 <= i < j < |logs| ensures Serializable(logs[i], logs[j]) {
        assert Subsequence(logs[i], c) && Subsequence(logs[j], c);
      }
    }
    if |logs| <= 2 && AllNoDup(logs) && PairsSerializable(logs) {
      var c: Log;
      if |logs| == 0 {
        c := [];
      } else if |logs| == 1 {
        c := logs[0];
        Reflexive(c);
      } else {
        assert Serializable(logs[0], logs[1]);
        c :| NoDup(c) && Subsequence(logs[0], c) && Subsequence(logs[1], c);
      }
      assert Explains(c, logs);
    }
  }

  /** Three logs can be serializable in pairs and still have no serial order together. */
  lemma PairwiseOnly()
    ensures var logs := [[1, 2], [2, 3], [3, 1]]; AllNoDup(logs) && PairsSerializable(logs) && !Joint(logs)
  {
    Chain(1, 2, 3);
    Chain(2, 3, 1);
    Chain(3, 1, 2);
    ThreePairs([1, 2], [2, 3], [3, 1]);
    NotJoint();
  }

  lemma ThreePairs(a: Log, b: Log, c: Log)
    requires NoDup(a) && NoDup(b) && NoDup(c) && Serializable(a, b) && Serializable(b, c) && Serializable(a, c)
    ensures AllNoDup([a, b, c]) && PairsSerializable([a, b, c])
  {
  }

  lemma NotJoint()
    ensures !Joint([[1, 2], [2, 3], [3, 1]])
  {
    forall c | NoDup(c) ensures !Explains(c, [[1, 2], [2, 3], [3, 1]]) {
      NoCircle(c);
    }
  }

  lemma Chain(x: Txn, y: Txn, z: Txn)
    requires x != y && y != z && x != z
    ensures Serializable([x, y], [y, z]) && Serializable([y, z], [x, y])
  {
    var c := [x, y, z];
    assert c[1..] == [y, z] && [y, z][1..] == [z] && [x, y][1..] == [y] && [y][1..] == [];
    Reflexive([y, z]);
    assert Subsequence([y], [y, z]);
    assert Subsequence([x, y], c) && Subsequence([y, z], c);
  }

  lemma NoCircle(c: Log)
    requires NoDup(c)
    ensures !Explains(c, [[1, 2], [2, 3], [3, 1]])
  {
    var logs := [[1, 2], [2, 3], [3, 1]];
    if Explains(c, logs) {
      assert Subsequence(logs[0], c) && Subsequence(logs[1], c) && Subsequence(logs[2], c);
      InOrder(c, 1, 2);
      InOrder(c, 2, 3);
      InOrder(c, 3, 1);
    }
  }

  lemma InOrder(c: Log, x: Txn, y: Txn)
    requires Subsequence([x, y], c)
    ensures Before(c, x, y)
  {
    assert [x, y][0] == x && [x, y][1] == y;
    SubsequenceBefore([x, y], c, x, y);
  }

  // -------------------- the checker --------------------

  /** Where each transaction of a log occurs. */
  ghost predicate IsIndex(pos: map<Txn, int>, a: Log) {
    && (forall i :: 0 <= i < |a| ==> a[i] in pos && pos[a[i]] == i)
    && (forall x :: x in pos ==> 0 <= pos[x] < |a| && a[pos[x]] == x)
  }

  method Positions(order: Log) returns (ok: bool, pos: map<Txn, int>)
    ensures ok <==> NoDup(order)
    ensures ok ==> IsIndex(pos, order)
  {
    pos := map[];
    var i := 0;
    while i < |order|
      invariant 0 <= i <= |order| && NoDup(order[..i]) && IsIndex(pos, order[..i])
    {
      if order[i] in pos {
        assert order[pos[order[i]]] == order[i];
        return false, pos;
      }
      pos := pos[order[i] := i];
      i := i + 1;
    }
    assert order[..i] == order;
    ok := true;
  }

  /** Whether the common transactions occur in increasing positions of the first log. */
  method CheckPair(a: Log, pos: map<Txn, int>, b: Log) returns (ok: bool)
    requires IsIndex(pos, a) && NoDup(a) && NoDup(b)
    ensures ok <==> Serializable(a, b)
  {
    SerializableIsAgree(a, b);
    var cur := -1;
    var k := 0;
    while k < |b|
      invariant 0 <= k <= |b|
      invariant cur == -1 || exists i :: 0 <= i < k && b[i] in pos && pos[b[i]] == cur
      invariant forall i :: 0 <= i < k && b[i] in pos ==> pos[b[i]] <= cur
      invariant forall i, j :: 0 <= i < j < k && b[i] in pos && b[j] in pos ==> pos[b[i]] < pos[b[j]]
    {
      if b[k] in pos {
        var p := pos[b[k]];
        if !(p > cur) {
          ghost var i :| 0 <= i < k && b[i] in pos && pos[b[i]] == cur;
          assert Before(b, b[i], b[k]) && Before(a, b[k], b[i]);
          return false;
        }
        cur := p;
      }
      k := k + 1;
    }
    assert Agree(a, b);
    ok := true;
  }

  /** The exit code over one log per partition: -1 for a repeated execution, -2 for two partitions that no serial
      order explains, 0 otherwise. What has one order for all partitions is never refused; what is accepted has one
      if and only if its precedence is acyclic. */
  method CheckCrossPartitions(logs: seq<Log>) returns (code: int)
    ensures code == -1 <==> !AllNoDup(logs)
    ensures code == -2 <==> AllNoDup(logs) && !PairsSerializable(logs)
    ensures code == 0 <==> AllNoDup(logs) && PairsSerializable(logs)
    ensures Joint(logs) ==> code == 0
    ensures code == 0 ==> (Joint(logs) <==> Acyclic(Precedence(logs)))
    ensures code == 0 && |logs| <= 2 ==> Joint(logs)
  {
    code := ComparePartitions(logs);
    JointIsAcyclic(logs);
    JointPairs(logs);
  }

  method ComparePartitions(logs: seq<Log>) returns (code: int)
    ensures code == -1 <==> !AllNoDup(logs)
    ensures code == -2 <==> AllNoDup(logs) && !PairsSerializable(logs)
    ensures code == 0 <==> AllNoDup(logs) && PairsSerializable(logs)
  {
    var positions: seq<map<Txn, int>> := [];
    var i := 0;
    while i < |logs|
      invariant 0 <= i <= |logs| && |positions| == i
      invariant forall t :: 0 <= t < i ==> NoDup(logs[t]) && IsIndex(positions[t], logs[t])
    {
      var ok, pos := Positions(logs[i]);
      if !ok {
        return -1;
      }
      positions := positions + [pos];
      i := i + 1;
    }
    var first := 0;
    while first < |logs|
      invariant 0 <= first <= |logs|
      invariant forall t, u :: 0 <= t < first && t < u < |logs| ==> Serializable(logs[t], logs[u])
    {
      var second := first + 1;
      while second < |logs|
        invariant first < second <= |logs|
        invariant forall u :: first < u < second ==> Serializable(logs[first], logs[u])
      {
        var ok := CheckPair(logs[first], positions[first], logs[second]);
        if !ok {
          return -2;
        }
        second := second + 1;
      }
      first := first + 1;
    }
    code := 0;
  }

  /** The logs of the replicas of a partition may differ in length only. */
  ghost predicate Identical(replicas: seq<Log>) {
    forall i :: 1 <= i < |replicas| ==> replicas[0] <= replicas[i] || replicas[i] <= replicas[0]
  }

  /** The exit code over the logs of all replicas: -1 if two replicas of a partition differ at some position. */
  method CheckReplicas(partitions: seq<seq<Log>>) returns (code: int)
    ensures code == 0 || code == -1
    ensures code == 0 <==> forall p :: 0 <= p < |partitions| ==> Identical(partitions[p])
  {
    var index := 0;
    while index < |partitions|
      invariant 0 <= index <= |partitions| && forall p :: 0 <= p < index ==> Identical(partitions[p])
    {
      var replicas := partitions[index];
      var i := 1;
      while i < |replicas|
        invariant 1 <= i && forall t :: 1 <= t < i && t < |replicas| ==>
            replicas[0] <= replicas[t] || replicas[t] <= replicas[0]
      {
        if replicas[0] != replicas[i] {
          var same := SamePrefix(replicas[0], replicas[i]);
          if !same {
            return -1;
          }
        }
        i := i + 1;
      }
      index := index + 1;
    }
    code := 0;
  }

  method SamePrefix(a: Log, b: Log) returns (same: bool)
    ensures same <==> a <= b || b <= a
  {
    var m := if |a| < |b| then |a| else |b|;
    var j := 0;
    while j < m
      invariant 0 <= j <= m && a[..j] == b[..j]
    {
      if a[j] != b[j] {
        return false;
      }
      j := j + 1;
    }
    assert a[..m] == b[..m];
    same := true;
  }
}
