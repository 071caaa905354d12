/** The FROM-clause rewriting of the Jet driver: every join chain of a table group
    is parenthesized left-associatively, and in a FROM clause with several comma
    groups every group that still contains a join becomes an aliased derived table. */
module Joins {
  import opened Wrappers
  import opened Strings

  /** The exception raised for a join block that cannot be parenthesized. */
  datatype QueryException = QueryException(message: string)

  const InvalidJoinSyntax := QueryException("Invalid join syntax. Could not parenthesize the join block properly.")

  /** A join block is split on this literal, case-sensitive marker. */
  const JoinMarker := " join"
  /** A rewritten group holding this text is wrapped as a derived table. */
  const JoinedMarker := " join "

  /** The three join qualifiers a segment may end with. */
  const Inner := " inner"
  const LeftOuter := " left outer"
  const RightOuter := " right outer"

  const AliasPrefix := "jetJoinAlias"

  /** The qualifier a segment ends with, tested in the order the driver tests them. */
  function Qualifier(segment: string): Option<string>
  {
    if EndsWith(segment, Inner) then Some(Inner)
    else if EndsWith(segment, LeftOuter) then Some(LeftOuter)
    else if EndsWith(segment, RightOuter) then Some(RightOuter)
    else None
  }

  predicate HasQualifier(segment: string)
  {
    Qualifier(segment).Some?
  }

  /** The segment with `)` placed just before the qualifier it ends with. */
  function CloseBeforeQualifier(segment: string): string
    requires HasQualifier(segment)
  {
    Insert(segment, |segment| - |Qualifier(segment).value|, ")")
  }

  /** Every segment strictly between the first and the last ends with a qualifier,
      and the last one does not. */
  predicate WellFormedChain(parts: seq<string>)
  {
    |parts| >= 1
    && (forall i :: 1 <= i < |parts| - 1 ==> HasQualifier(parts[i]))
    && !HasQualifier(parts[|parts| - 1])
  }

  /** The segments of a well-formed chain, each middle one closed before its qualifier. */
  function ClosedSegments(parts: seq<string>): seq<string>
    requires WellFormedChain(parts)
  {
    seq(|parts|, i requires 0 <= i < |parts| =>
      if 0 < i < |parts| - 1 then CloseBeforeQualifier(parts[i]) else parts[i])
  }

  /** The Jet form of one table group: unchanged when it holds no join marker; otherwise
      a space, one `(` per middle segment, and the segments rejoined on the marker with
      every middle segment closed; an error for any other shape of chain. */
  function JetJoinBlock(block: string): (r: Result<string, QueryException>)
    ensures r.Err? ==> r.error == InvalidJoinSyntax
    ensures !Contains(block, JoinMarker) ==> r == Ok(block)
  {
    SplitSingle(block, JoinMarker);
    JetChain(Split(block, JoinMarker))
  }

  /** The Jet form of a chain given by its segments: a lone segment as it is, a
      well-formed chain opened by a space and one `(` per middle segment, and the fixed
      error for any other chain. */
  function JetChain(parts: seq<string>): (r: Result<string, QueryException>)
    requires |parts| >= 1
    ensures r.Err? ==> r.error == InvalidJoinSyntax
    ensures r.Ok? <==> |parts| == 1 || WellFormedChain(parts)
    ensures |parts| == 1 ==> r == Ok(parts[0])
    ensures |parts| >= 2 && r.Ok? ==> StartsWith(r.value, " " + Repeat('(', |parts| - 2))
  {
    if |parts| == 1 then Ok(parts[0])
    else if WellFormedChain(parts) then
      Ok(" " + Repeat('(', |parts| - 2) + Join(ClosedSegments(parts), JoinMarker))
    else Err(InvalidJoinSyntax)
  }

  /** The segments with those at indices 1 to `upTo - 1` closed: the state of the
      driver's segment array after its loop has handled them. */
  function ClosedUpTo(parts: seq<string>, upTo: nat): (closed: seq<string>)
    requires forall k :: 1 <= k < upTo && k < |parts| ==> HasQualifier(parts[k])
    ensures |closed| == |parts|
  {
    seq(|parts|, k requires 0 <= k < |parts| =>
      if 1 <= k < upTo then CloseBeforeQualifier(parts[k]) else parts[k])
  }

  lemma ClosedUpToStep(parts: seq<string>, i: nat)
    requires 1 <= i < |parts|
    requires forall k :: 1 <= k <= i ==> HasQualifier(parts[k])
    ensures ClosedUpTo(parts, i + 1) == ClosedUpTo(parts, i)[i := CloseBeforeQualifier(parts[i])]
  {
  }

  /** The driver's join-block rewrite: splits the block into an array of segments, closes
      each middle segment in place and counts the parentheses it will open. */
  method TransformJoinBlock(block: string) returns (r: Result<string, QueryException>)
    ensures r == JetJoinBlock(block)
  {
    var parenthesisCount := 0;
    var parts := Split(block, JoinMarker);
    assert JetJoinBlock(block) == JetChain(parts);
    var blockParts := new string[|parts|](k requires 0 <= k < |parts| => parts[k]);
    assert blockParts[..] == ClosedUpTo(parts, 1);
    if blockParts.Length > 1 {
      var i := 1;
      while i < blockParts.Length
        invariant 1 <= i <= blockParts.Length
        invariant parenthesisCount == i - 1
        invariant forall k :: 1 <= k < i ==> HasQualifier(parts[k])
        invariant blockParts[..] == ClosedUpTo(parts, i)
      {
        var part := blockParts[i];
        assert part == parts[i];
        var parenthesisIndex := ParenthesisIndex(part);

        if parenthesisIndex == -1 {
          if i < blockParts.Length - 1 {
            ChainFailsInMiddle(parts, i);
            return Err(InvalidJoinSyntax);
          }
          // The last segment carries no qualifier: the chain is complete.
          ChainCompletes(parts);
          var b := OpenThenJoin(parenthesisCount, blockParts[..]);
          return Ok(b);
        } else {
          parenthesisCount := parenthesisCount + 1;
          ClosedUpToStep(parts, i);
          ghost var next := ClosedUpTo(parts, i + 1);
          blockParts[i] := Insert(part, parenthesisIndex, ")");
          assert blockParts[..] == next;
        }
        i := i + 1;
      }
      // The last segment ended with a qualifier, so a join was still expected.
      ChainFailsAtEnd(parts);
      return Err(InvalidJoinSyntax);
    } else {
      return Ok(blockParts[0]);
    }
  }

  lemma ChainFailsInMiddle(parts: seq<string>, i: nat)
    requires 1 <= i < |parts| - 1 && !HasQualifier(parts[i])
    ensures JetChain(parts) == Err(InvalidJoinSyntax)
  {
    assert !WellFormedChain(parts);
  }

  lemma ChainFailsAtEnd(parts: seq<string>)
    requires |parts| >= 2 && HasQualifier(parts[|parts| - 1])
    ensures JetChain(parts) == Err(InvalidJoinSyntax)
  {
  }

  lemma ChainCompletes(parts: seq<string>)
    requires |parts| >= 2
    requires forall k :: 1 <= k < |parts| - 1 ==> HasQualifier(parts[k])
    requires !HasQualifier(parts[|parts| - 1])
    ensures WellFormedChain(parts)
    ensures ClosedUpTo(parts, |parts| - 1) == ClosedSegments(parts)
    ensures JetChain(parts) == Ok(" " + Repeat('(', |parts| - 2) + Join(ClosedUpTo(parts, |parts| - 1), JoinMarker))
  {
  }

  /** The text the driver's StringBuilder assembles for a complete chain: a space,
      `count` opening parentheses, then the segments joined on the marker. */
  method OpenThenJoin(count: nat, segments: seq<string>) returns (b: string)
    ensures b == " " + Repeat('(', count) + Join(segments, JoinMarker)
  {
    b := " ";
    var j := 0;
    while j < count
      invariant 0 <= j <= count
      invariant b == " " + Repeat('(', j)
    {
      b := b + "(";
      j := j + 1;
    }
    b := b + Join(segments, JoinMarker);
  }

  /** Where a segment's closing parenthesis goes: just before the qualifier it ends with,
      or -1 when it ends with none. */
  method ParenthesisIndex(part: string) returns (parenthesisIndex: int)
    ensures HasQualifier(part) ==> parenthesisIndex == |part| - |Qualifier(part).value|
    ensures !HasQualifier(part) ==> parenthesisIndex == -1
  {
    parenthesisIndex := -1;
    if EndsWith(part, Inner) {
      parenthesisIndex := |part| - 6;
    } else if EndsWith(part, LeftOuter) {
      parenthesisIndex := |part| - 11;
    } else if EndsWith(part, RightOuter) {
      parenthesisIndex := |part| - 12;
    }
  }

  lemma JoinMarkerOverlapFree()
    ensures OverlapFree(JoinMarker)
  {
    forall d | 0 < d < |JoinMarker| ensures JoinMarker[d..] != JoinMarker[..|JoinMarker| - d] {
      assert JoinMarker[d..][0] != JoinMarker[..|JoinMarker| - d][0];
    }
  }

  /** A block that does not contain the join marker comes back exactly as it was, and
      a block that contains it never does. */
  lemma NoJoinUnchanged(block: string)
    ensures JetJoinBlock(block) == Ok(block) <==> !Contains(block, JoinMarker)
  {
    var parts := Split(block, JoinMarker);
    if Contains(block, JoinMarker) {
      assert |parts| >= 2;
      if JetJoinBlock(block).Ok? {
        JoinBlockCharacters(block, |parts|);
        assert |multiset(JetJoinBlock(block).value)| > |multiset(block)|;
      }
    }
  }

  /** Closing a segment adds one `)` to it and nothing else. */
  lemma CloseAddsParenthesis(segment: string)
    requires HasQualifier(segment)
    ensures multiset(CloseBeforeQualifier(segment)) == multiset(segment) + multiset{')'}
  {
    var k := |segment| - |Qualifier(segment).value|;
    assert segment == segment[..k] + segment[k..];
  }

  /** Closing the middle segments adds one `)` per middle segment to the joined chain. */
  lemma ClosedSegmentsCharacters(parts: seq<string>)
    requires WellFormedChain(parts) && |parts| >= 2
    ensures multiset(Join(ClosedSegments(parts), JoinMarker))
      == multiset(Join(parts, JoinMarker)) + multiset(Repeat(')', |parts| - 2))
  {
    var n := |parts|;
    var closed := ClosedSegments(parts);
    var extra := ClosingMarks(n);
    forall i | 0 <= i < n ensures multiset(closed[i]) == multiset(parts[i]) + extra[i] {
      if 0 < i < n - 1 {
        CloseAddsParenthesis(parts[i]);
      }
    }
    JoinMultiset(parts, closed, JoinMarker, extra);
    ClosingMarksSum(n);
  }

  /** The characters each closed segment gains: a `)` for every middle segment. */
  function ClosingMarks(n: nat): (marks: seq<multiset<char>>)
    requires n >= 2
    ensures |marks| == n
    ensures marks[0] == multiset{} && marks[n - 1] == multiset{}
    ensures forall i :: 0 < i < n - 1 ==> marks[i] == multiset{')'}
  {
    [multiset{}] + seq(n - 2, _ => multiset{')'}) + [multiset{}]
  }

  lemma ClosingMarksSum(n: nat)
    requires n >= 2
    ensures SumMultisets(ClosingMarks(n)) == multiset(Repeat(')', n - 2))
  {
    var marks := seq(n - 2, _ => multiset{')'});
    SumMultisetsAppend([multiset{}] + marks, [multiset{}]);
    SumMultisetsAppend([multiset{}], marks);
    assert SumMultisets([multiset{}]) == multiset{};
    SumOfRepeat(')', n - 2);
  }

  /** A successful rewrite of a chain of n segments adds one space, n-2 opening and n-2
      closing parentheses, and keeps every other character of the block. */
  lemma JoinBlockCharacters(block: string, n: nat)
    requires n == |Split(block, JoinMarker)| >= 2
    ensures JetJoinBlock(block).Ok? ==>
      multiset(JetJoinBlock(block).value)
        == multiset(block) + multiset{' '} + multiset(Repeat('(', n - 2)) + multiset(Repeat(')', n - 2))
  {
    var parts := Split(block, JoinMarker);
    if JetChain(parts).Ok? {
      JoinSplit(block, JoinMarker);
      ChainCharacters(parts);
    }
  }

  lemma ChainCharacters(parts: seq<string>)
    requires |parts| >= 2 && WellFormedChain(parts)
    ensures var n := |parts|;
      multiset(JetChain(parts).value)
        == multiset(Join(parts, JoinMarker)) + multiset{' '} + multiset(Repeat('(', n - 2)) + multiset(Repeat(')', n - 2))
  {
    var n := |parts|;
    var prefix := " " + Repeat('(', n - 2);
    var joined := Join(ClosedSegments(parts), JoinMarker);
    assert JetChain(parts).value == prefix + joined;
    assert multiset(prefix + joined) == multiset(prefix) + multiset(joined);
    assert multiset(prefix) == multiset{' '} + multiset(Repeat('(', n - 2));
    ClosedSegmentsCharacters(parts);
  }

  /** The number of opening parentheses added equals the number of closing ones, and both
      are the number of middle segments. */
  lemma JoinBlockParenthesesBalanced(block: string)
    ensures var parts := Split(block, JoinMarker);
      JetJoinBlock(block).Ok? ==>
        var r := JetJoinBlock(block).value;
        var added := if |parts| >= 2 then |parts| - 2 else 0;
        multiset(r)['('] == multiset(block)['('] + added
        && multiset(r)[')'] == multiset(block)[')'] + added
  {
    var parts := Split(block, JoinMarker);
    var r := JetJoinBlock(block);
    if r.Ok? && |parts| >= 2 {
      var n := |parts| - 2;
      JoinBlockCharacters(block, |parts|);
      AddedParentheses(multiset(block), n, multiset(r.value));
    } else if r.Ok? {
      SplitSingle(block, JoinMarker);
      assert r.value == block;
    }
  }

  /** Adding a space and `added` opening and closing parentheses to a multiset of
      characters raises the count of each parenthesis by `added`. */
  lemma AddedParentheses(chars: multiset<char>, added: nat, more: multiset<char>)
    requires more == chars + multiset{' '} + multiset(Repeat('(', added)) + multiset(Repeat(')', added))
    ensures more['('] == chars['('] + added && more[')'] == chars[')'] + added
  {
    RepeatCount('(', added, '(');
    RepeatCount('(', added, ')');
    RepeatCount(')', added, '(');
    RepeatCount(')', added, ')');
  }

  /** The shape of a successful rewrite of n >= 2 segments: a space and n-2 opening
      parentheses, then a chain that splits on the marker into exactly n segments, the
      first and the last as they were and each middle one with `)` immediately before the
      qualifier it ends with. */
  lemma JoinBlockShape(block: string)
    ensures var parts := Split(block, JoinMarker); var n := |parts|;
      JetJoinBlock(block).Ok? && n >= 2 ==>
        var r := JetJoinBlock(block).value;
        var segments := Split(r[n - 1..], JoinMarker);
        r[..n - 1] == " " + Repeat('(', n - 2)
        && |segments| == n
        && segments[0] == parts[0]
        && segments[n - 1] == parts[n - 1]
        && forall i :: 0 < i < n - 1 ==>
          var q := Qualifier(parts[i]);
          q.Some? && q.value in {Inner, LeftOuter, RightOuter} && EndsWith(parts[i], q.value)
          && segments[i] == parts[i][..|parts[i]| - |q.value|] + ")" + q.value
  {
    var parts := Split(block, JoinMarker);
    if JetChain(parts).Ok? && |parts| >= 2 {
      assert WellFormedChain(parts);
      SplitPiecesLackSeparator(block, JoinMarker);
      ChainShape(parts);
    }
  }

  /** The shape of a well-formed chain's rewrite, segment by segment. */
  lemma ChainShape(parts: seq<string>)
    requires |parts| >= 2 && WellFormedChain(parts)
    requires forall i :: 0 <= i < |parts| ==> !Contains(parts[i], JoinMarker)
    ensures var n := |parts|;
      var r := " " + Repeat('(', n - 2) + Join(ClosedSegments(parts), JoinMarker);
      var segments := Split(r[n - 1..], JoinMarker);
      r[..n - 1] == " " + Repeat('(', n - 2)
      && |segments| == n
      && segments[0] == parts[0]
      && segments[n - 1] == parts[n - 1]
      && forall i :: 0 < i < n - 1 ==>
        var q := Qualifier(parts[i]);
        q.Some? && q.value in {Inner, LeftOuter, RightOuter} && EndsWith(parts[i], q.value)
        && segments[i] == parts[i][..|parts[i]| - |q.value|] + ")" + q.value
  {
    var n := |parts|;
    var closed := ClosedSegments(parts);
    var prefix := " " + Repeat('(', n - 2);
    var r := prefix + Join(closed, JoinMarker);
    assert |prefix| == n - 1;
    assert r[..n - 1] == prefix;
    assert r[n - 1..] == Join(closed, JoinMarker);
    ClosedSegmentsSplit(parts);
    forall i | 0 < i < n - 1
      ensures var q := Qualifier(parts[i]);
        q.Some? && q.value in {Inner, LeftOuter, RightOuter} && EndsWith(parts[i], q.value)
        && closed[i] == parts[i][..|parts[i]| - |q.value|] + ")" + q.value
    {
      ClosedSegmentShape(parts[i]);
    }
  }

  /** A closed segment is the segment up to its qualifier, `)`, then the qualifier. */
  lemma ClosedSegmentShape(segment: string)
    requires HasQualifier(segment)
    ensures var q := Qualifier(segment);
      q.Some? && q.value in {Inner, LeftOuter, RightOuter} && EndsWith(segment, q.value)
      && CloseBeforeQualifier(segment) == segment[..|segment| - |q.value|] + ")" + q.value
  {
    var q := Qualifier(segment).value;
    assert segment[|segment| - |q|..] == q;
  }

  /** The closed segments contain no marker, so splitting their join gives them back. */
  lemma ClosedSegmentsSplit(parts: seq<string>)
    requires WellFormedChain(parts) && |parts| >= 2
    requires forall i :: 0 <= i < |parts| ==> !Contains(parts[i], JoinMarker)
    ensures Split(Join(ClosedSegments(parts), JoinMarker), JoinMarker) == ClosedSegments(parts)
  {
    var closed := ClosedSegments(parts);
    forall i | 0 <= i < |parts| ensures !Contains(closed[i], JoinMarker) {
      if 0 < i < |parts| - 1 {
        InsertKeepsAbsent(parts[i], |parts[i]| - |Qualifier(parts[i]).value|, ')', JoinMarker);
      }
    }
    JoinMarkerOverlapFree();
    SplitJoin(closed, JoinMarker);
  }

  /** With exactly one join marker nothing is parenthesized: the block only gains a
      leading space, unless its second segment ends with a qualifier. */
  lemma SingleJoin(block: string)
    ensures var parts := Split(block, JoinMarker);
      |parts| == 2 ==>
        JetJoinBlock(block) == if HasQualifier(parts[1]) then Err(InvalidJoinSyntax) else Ok(" " + block)
  {
    var parts := Split(block, JoinMarker);
    if |parts| == 2 && !HasQualifier(parts[1]) {
      SingleJoinChain(parts);
      JoinSplit(block, JoinMarker);
      assert Join(parts, JoinMarker) == block;
    }
  }

  lemma SingleJoinChain(parts: seq<string>)
    requires |parts| == 2 && !HasQualifier(parts[1])
    ensures WellFormedChain(parts) && ClosedSegments(parts) == parts
    ensures " " + Repeat('(', |parts| - 2) + Join(ClosedSegments(parts), JoinMarker) == " " + Join(parts, JoinMarker)
  {
    assert ClosedSegments(parts) == parts;
    assert Repeat('(', 0) == "";
  }

  /** The two ways a join block fails: a segment before the last lacks a qualifier, or the
      last one has one. */
  lemma JoinBlockErrors(block: string)
    ensures var parts := Split(block, JoinMarker);
      JetJoinBlock(block).Err? <==>
        |parts| >= 2
        && ((exists i :: 1 <= i < |parts| - 1 && !HasQualifier(parts[i])) || HasQualifier(parts[|parts| - 1]))
    ensures JetJoinBlock(block).Err? ==> JetJoinBlock(block).error == InvalidJoinSyntax
  {
    assert JetJoinBlock(block) == JetChain(Split(block, JoinMarker));
  }

  /** The rewrite of a group leaves its commas alone: a comma-free group stays comma-free. */
  lemma JoinBlockKeepsCommas(block: string)
    ensures JetJoinBlock(block).Ok? ==> multiset(JetJoinBlock(block).value)[','] == multiset(block)[',']
  {
    var parts := Split(block, JoinMarker);
    if JetJoinBlock(block).Ok? {
      if |parts| >= 2 {
        JoinBlockCharacters(block, |parts|);
        RepeatCount('(', |parts| - 2, ',');
        RepeatCount(')', |parts| - 2, ',');
      } else {
        SplitSingle(block, JoinMarker);
      }
    }
  }

  /** The generated name of the derived table made from group `i`. */
  function Alias(i: nat): string
  {
    AliasPrefix + NatToString(i)
  }

  /** A rewritten group as it appears in a FROM clause with several groups. */
  function WrapGroup(i: nat, rewritten: string): (wrapped: string)
    ensures wrapped == rewritten <==> !Contains(rewritten, JoinedMarker)
    ensures Contains(rewritten, JoinedMarker) ==>
      StartsWith(wrapped, "(select * from ") && EndsWith(wrapped, ") as " + Alias(i))
  {
    if Contains(rewritten, JoinedMarker) then "(select * from " + rewritten + ") as " + Alias(i)
    else rewritten
  }

  /** Aliases are indexed by position, so two groups never share one. */
  lemma AliasesDistinct(i: nat, j: nat)
    ensures Alias(i) == Alias(j) <==> i == j
  {
    NatToStringInjective(i, j);
    if Alias(i) == Alias(j) {
      assert NatToString(i) == Alias(i)[|AliasPrefix|..];
    }
  }

  /** The rewritten groups of a FROM clause whose every group rewrites successfully. */
  function WrappedGroups(groups: seq<string>): (wrapped: seq<string>)
    requires forall i :: 0 <= i < |groups| ==> JetJoinBlock(groups[i]).Ok?
    ensures |wrapped| == |groups|
  {
    seq(|groups|, i requires 0 <= i < |groups| => WrapGroup(i, JetJoinBlock(groups[i]).value))
  }

  /** The Jet form of a FROM clause: its comma groups rewritten one by one (and wrapped
      when there are several), then rejoined with commas; the first failing group's
      error otherwise. */
  function JetFromClause(fromClause: string): (r: Result<string, QueryException>)
    ensures r.Err? ==> r.error == InvalidJoinSyntax
    ensures !Contains(fromClause, ",") ==> r == JetJoinBlock(fromClause)
  {
    SplitSingle(fromClause, ",");
    var groups := Split(fromClause, ",");
    if |groups| == 1 then JetJoinBlock(groups[0])
    else if forall i :: 0 <= i < |groups| ==> JetJoinBlock(groups[i]).Ok? then
      Ok(Join(WrappedGroups(groups), ","))
    else Err(InvalidJoinSyntax)
  }

  /** A FROM clause without any join keyword comes back exactly as it was. */
  lemma FromClauseWithoutJoins(fromClause: string)
    ensures !Contains(fromClause, JoinMarker) ==> JetFromClause(fromClause) == Ok(fromClause)
  {
    if !Contains(fromClause, JoinMarker) {
      var groups := Split(fromClause, ",");
      SplitPiecesLackAbsent(fromClause, ",", JoinMarker);
      forall i | 0 <= i < |groups| ensures JetJoinBlock(groups[i]) == Ok(groups[i]) {
        NoJoinUnchanged(groups[i]);
      }
      if |groups| == 1 {
        SplitSingle(fromClause, ",");
      } else {
        var wrapped := WrappedGroups(groups);
        forall i | 0 <= i < |groups| ensures wrapped[i] == groups[i] {
          assert JoinedMarker == JoinMarker + " ";
          ContainsPrefixOfPattern(groups[i], JoinMarker, " ");
        }
        assert wrapped == groups;
        JoinSplit(fromClause, ",");
      }
    }
  }

  /** The groups with those before index `upTo` rewritten and wrapped: the state of the
      driver's group array after its loop has handled them. */
  function WrappedUpTo(groups: seq<string>, upTo: nat): (wrapped: seq<string>)
    requires forall k :: 0 <= k < upTo && k < |groups| ==> JetJoinBlock(groups[k]).Ok?
    ensures |wrapped| == |groups|
  {
    seq(|groups|, k requires 0 <= k < |groups| =>
      if k < upTo then WrapGroup(k, JetJoinBlock(groups[k]).value) else groups[k])
  }

  lemma WrappedUpToStep(groups: seq<string>, i: nat, tr: string)
    requires i < |groups|
    requires forall k :: 0 <= k < i ==> JetJoinBlock(groups[k]).Ok?
    requires JetJoinBlock(groups[i]) == Ok(tr)
    ensures forall k :: 0 <= k < i + 1 ==> JetJoinBlock(groups[k]).Ok?
    ensures WrappedUpTo(groups, i + 1) == WrappedUpTo(groups, i)[i := WrapGroup(i, tr)]
  {
  }

  lemma WrappedUpToComplete(groups: seq<string>)
    requires forall k :: 0 <= k < |groups| ==> JetJoinBlock(groups[k]).Ok?
    ensures WrappedUpTo(groups, |groups|) == WrappedGroups(groups)
  {
  }

  /** The driver's FROM-clause rewrite, which replaces each group of the split array
      in place. */
  method TransformFromClause(fromClause: string) returns (r: Result<string, QueryException>)
    ensures r == JetFromClause(fromClause)
  {
    var groups := Split(fromClause, ",");
    var blocks := new string[|groups|](k requires 0 <= k < |groups| => groups[k]);
    assert blocks[..] == WrappedUpTo(groups, 0);
    if blocks.Length > 1 {
      var i := 0;
      while i < blocks.Length
        invariant 0 <= i <= blocks.Length
        invariant forall k :: 0 <= k < i ==> JetJoinBlock(groups[k]).Ok?
        invariant blocks[..] == WrappedUpTo(groups, i)
      {
        var tr := TransformJoinBlock(blocks[i]);
        if tr.Err? {
          return Err(tr.error);
        }
        WrappedUpToStep(groups, i, tr.value);
        if IndexOf(tr.value, JoinedMarker).Some? {
          blocks[i] := "(select * from " + tr.value + ") as " + Alias(i);
        } else {
          blocks[i] := tr.value;
        }
        i := i + 1;
      }
      WrappedUpToComplete(groups);
      r := Ok(Join(blocks[..], ","));
    } else {
      r := TransformJoinBlock(blocks[0]);
    }
  }

  /** A FROM clause fails exactly when one of its groups fails. */
  lemma FromClauseErrors(fromClause: string)
    ensures var groups := Split(fromClause, ",");
      JetFromClause(fromClause).Err? <==> exists i :: 0 <= i < |groups| && JetJoinBlock(groups[i]).Err?
  {
    var groups := Split(fromClause, ",");
    if |groups| == 1 {
      assert JetFromClause(fromClause) == JetJoinBlock(groups[0]);
    }
  }

  /** A rewritten FROM clause with several groups splits on commas into as many groups as
      the original, in the same order: group i is the rewrite of group i, wrapped as
      `(select * from <rewrite>) as jetJoinAlias<i>` exactly when that rewrite contains
      " join ". */
  lemma FromClauseGroups(fromClause: string)
    ensures var groups := Split(fromClause, ",");
      JetFromClause(fromClause).Ok? && |groups| >= 2 ==>
        var rewritten := Split(JetFromClause(fromClause).value, ",");
        |rewritten| == |groups|
        && forall i :: 0 <= i < |groups| ==>
          JetJoinBlock(groups[i]).Ok?
          && var tr := JetJoinBlock(groups[i]).value;
          rewritten[i] == if Contains(tr, JoinedMarker) then "(select * from " + tr + ") as " + Alias(i) else tr
  {
    var groups := Split(fromClause, ",");
    var r := JetFromClause(fromClause);
    if r.Ok? && |groups| >= 2 {
      assert forall i :: 0 <= i < |groups| ==> JetJoinBlock(groups[i]).Ok?;
      var wrapped := WrappedGroups(groups);
      assert r.value == Join(wrapped, ",");
      SplitPiecesLackSeparator(fromClause, ",");
      forall i | 0 <= i < |groups| ensures !Contains(wrapped[i], ",") {
        WrapGroupCommaFree(i, groups[i]);
      }
      SplitJoin(wrapped, ",");
    }
  }

  /** A comma-free group stays comma-free once rewritten and wrapped. */
  lemma WrapGroupCommaFree(i: nat, group: string)
    requires !Contains(group, ",") && JetJoinBlock(group).Ok?
    ensures !Contains(WrapGroup(i, JetJoinBlock(group).value), ",")
  {
    var tr := JetJoinBlock(group).value;
    ContainsChar(group, ',');
    JoinBlockKeepsCommas(group);
    assert ',' !in tr;
    WrapKeepsCommaFree(i, tr);
    ContainsChar(WrapGroup(i, tr), ',');
  }

  lemma WrapKeepsCommaFree(i: nat, tr: string)
    requires ',' !in tr
    ensures ',' !in WrapGroup(i, tr)
  {
    if Contains(tr, JoinedMarker) {
      var head, middle, alias := "(select * from ", ") as ", Alias(i);
      assert ',' !in head && ',' !in middle && ',' !in alias;
      assert WrapGroup(i, tr) == head + tr + middle + alias;
    }
  }
}
