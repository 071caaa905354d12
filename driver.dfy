/** The Jet driver: it recognises SELECT statements, locates their FROM clause, rewrites
    it into Jet's parenthesised join syntax and memoises each rewritten statement by its
    original text. */
module Driver {
  import opened Wrappers
  import opened Strings
  import opened Joins

  /** How the command text is to be read by the ADO.NET provider. */
  datatype CommandType = Text | StoredProcedure | TableDirect

  /** A parameter's SQL type, carried through to the command unchanged. */
  datatype SqlType = SqlType(dbType: string)

  /** The command handed to the OLE DB layer. */
  datatype Command = Command(commandType: CommandType, commandText: string, parameterTypes: seq<SqlType>)

  const SelectKeyword := "select"
  const FromKeyword := "from"
  const WhereKeyword := "where"

  /** A statement is a query when it starts with `select`, in any letter case. */
  predicate IsSelectStatement(sqlString: string)
    ensures IsSelectStatement(sqlString) <==> |sqlString| >= 6 && Lower(sqlString[..6]) == SelectKeyword
  {
    assert Lower(SelectKeyword) == SelectKeyword;
    LowerPrefix(sqlString, |SelectKeyword|);
    StartsWithIgnoreCase(sqlString, SelectKeyword)
  }

  /** Where the FROM clause begins: the first `from`, in any letter case, anywhere in the
      statement. */
  function FindFrom(sqlString: string): Option<nat>
  {
    IndexOfIgnoreCase(sqlString, FromKeyword)
  }

  /** Where the FROM clause ends: the first `where` in the statement, or its end. */
  function EndOfFrom(sqlString: string): (w: nat)
    ensures w <= |sqlString|
  {
    match IndexOfIgnoreCase(sqlString, WhereKeyword)
    case Some(k) => k
    case None => |sqlString|
  }

  /** The statement's FROM span can be cut out: no `where` comes before its `from`. */
  predicate FromPrecedesWhere(sqlString: string)
  {
    FindFrom(sqlString).Some? ==> FindFrom(sqlString).value <= EndOfFrom(sqlString)
  }

  /** The Jet form of a SELECT statement: the FROM span replaced by its Jet form between
      the untouched prefix and suffix; unchanged when there is no `from`. */
  function JetStatement(sqlString: string): (r: Result<string, QueryException>)
    requires FromPrecedesWhere(sqlString)
    ensures r.Err? ==> r.error == InvalidJoinSyntax
    ensures FindFrom(sqlString).None? ==> r == Ok(sqlString)
    ensures FindFrom(sqlString).Some? ==>
      (r.Ok? <==> JetFromClause(sqlString[FindFrom(sqlString).value..EndOfFrom(sqlString)]).Ok?)
    ensures r.Ok? && FindFrom(sqlString).Some? ==>
      StartsWith(r.value, sqlString[..FindFrom(sqlString).value]) && EndsWith(r.value, sqlString[EndOfFrom(sqlString)..])
  {
    match FindFrom(sqlString)
    case None => Ok(sqlString)
    case Some(beginOfFrom) =>
      var endOfFrom := EndOfFrom(sqlString);
      match JetFromClause(sqlString[beginOfFrom..endOfFrom])
      case Err(e) => Err(e)
      case Ok(transformedFrom) => Ok(sqlString[..beginOfFrom] + transformedFrom + sqlString[endOfFrom..])
  }

  /** The text the driver sends for a statement: queries rewritten, everything else as is. */
  function JetCommandText(sqlString: string): Result<string, QueryException>
    requires IsSelectStatement(sqlString) ==> FromPrecedesWhere(sqlString)
  {
    if IsSelectStatement(sqlString) then JetStatement(sqlString) else Ok(sqlString)
  }

  /** The `select` test is a letter-by-letter, case-blind comparison of the first six
      characters; leading white space is not skipped. */
  lemma SelectTest(sqlString: string)
    ensures IsSelectStatement(sqlString) <==>
      |sqlString| >= 6 && forall i :: 0 <= i < 6 ==> ToLower(sqlString[i]) == SelectKeyword[i]
  {
    assert Lower(SelectKeyword) == SelectKeyword;
    if |sqlString| >= 6 {
      assert forall i :: 0 <= i < 6 ==> Lower(sqlString)[..6][i] == ToLower(sqlString[i]);
    }
  }

  /** The test ignores letter case: a statement and its lower-cased form agree. */
  lemma SelectTestIgnoresCase(sqlString: string)
    ensures IsSelectStatement(sqlString) <==> IsSelectStatement(Lower(sqlString))
  {
  }

  /** Statements other than queries are sent exactly as given. */
  lemma NonSelectPassthrough(sqlString: string)
    ensures !IsSelectStatement(sqlString) ==> JetCommandText(sqlString) == Ok(sqlString)
  {
  }

  /** A statement with no `from` is a query the rewrite leaves alone. */
  lemma FromlessPassthrough(sqlString: string)
    ensures FindFrom(sqlString).None? <==> !Contains(Lower(sqlString), FromKeyword)
    ensures FindFrom(sqlString).None? ==> JetStatement(sqlString) == Ok(sqlString)
  {
    assert Lower(FromKeyword) == FromKeyword;
  }

  /** The span cut out as the FROM clause begins with the keyword `from` (in any letter
      case) and contains no `where`: a `where` cannot start inside the keyword since no
      letter of `from` is a `w`. */
  lemma FromClauseSpan(sqlString: string)
    requires FromPrecedesWhere(sqlString) && FindFrom(sqlString).Some?
    ensures var f, w := FindFrom(sqlString).value, EndOfFrom(sqlString);
      f + 4 <= w
      && Lower(sqlString[f..w])[..4] == FromKeyword
      && !Contains(Lower(sqlString[f..w]), WhereKeyword)
  {
    var f, w := FindFrom(sqlString).value, EndOfFrom(sqlString);
    var l := Lower(sqlString);
    assert Lower(FromKeyword) == FromKeyword && Lower(WhereKeyword) == WhereKeyword;
    assert MatchesAt(l, FromKeyword, f);
    if IndexOfIgnoreCase(sqlString, WhereKeyword).Some? {
      assert MatchesAt(l, WhereKeyword, w);
      WhereNotInsideFrom(l, f, w);
    }
    var span := Lower(sqlString[f..w]);
    assert span == l[f..w];
    assert span[..4] == l[f..f + 4];
    SpanLacksWhere(l, f, w);
  }

  lemma WhereNotInsideFrom(l: string, f: nat, w: nat)
    requires MatchesAt(l, FromKeyword, f) && MatchesAt(l, WhereKeyword, w) && f <= w
    ensures f + 4 <= w
  {
    assert l[w] == WhereKeyword[0];
    assert forall j :: f <= j < f + 4 ==> l[j] == l[f..f + |FromKeyword|][j - f];
  }

  /** No `where` occurs inside a span that ends at the first `where`. */
  lemma SpanLacksWhere(l: string, f: nat, w: nat)
    requires f <= w <= |l|
    requires forall j: nat :: j < w ==> !MatchesAt(l, WhereKeyword, j)
    ensures !Contains(l[f..w], WhereKeyword)
  {
    var span := l[f..w];
    if Contains(span, WhereKeyword) {
      var k: nat :| k <= |span| && MatchesAt(span, WhereKeyword, k);
      MatchInSlice(l, WhereKeyword, f, w, k);
    }
  }

  /** A rewritten statement keeps everything before the `from` and from the `where` on,
      and has the Jet form of the FROM span between them. */
  lemma SpliceKeepsContext(sqlString: string)
    requires FromPrecedesWhere(sqlString) && FindFrom(sqlString).Some?
    ensures var f, w := FindFrom(sqlString).value, EndOfFrom(sqlString);
      var r := JetStatement(sqlString);
      (r.Ok? <==> JetFromClause(sqlString[f..w]).Ok?)
      && (r.Ok? ==>
        var t := JetFromClause(sqlString[f..w]).value;
        |r.value| == f + |t| + (|sqlString| - w)
        && r.value[..f] == sqlString[..f]
        && r.value[f..f + |t|] == t
        && r.value[f + |t|..] == sqlString[w..])
  {
  }

  /** A query whose FROM span has no join keyword is sent unchanged. */
  lemma NoJoinStatementUnchanged(sqlString: string)
    requires FromPrecedesWhere(sqlString)
    ensures FindFrom(sqlString).Some? && !Contains(sqlString[FindFrom(sqlString).value..EndOfFrom(sqlString)], JoinMarker)
      ==> JetStatement(sqlString) == Ok(sqlString)
  {
    if FindFrom(sqlString).Some? {
      var f, w := FindFrom(sqlString).value, EndOfFrom(sqlString);
      FromClauseWithoutJoins(sqlString[f..w]);
      assert sqlString[..f] + sqlString[f..w] + sqlString[w..] == sqlString;
    }
  }

  /** The driver with its translation cache, keyed by the original statement text. */
  class JetDriver {
    var queryCache: map<string, string>

    /** Every cached entry is the successful Jet form of a query that has a FROM clause. */
    ghost predicate Valid()
      reads this
    {
      forall k :: k in queryCache ==>
        FromPrecedesWhere(k) && FindFrom(k).Some? && JetStatement(k) == Ok(queryCache[k])
    }

    constructor()
      ensures Valid() && queryCache == map[]
    {
      queryCache := map[];
    }

    /** Rewrites a query, answering from the cache when the same text was rewritten
        before and storing each fresh successful rewrite that had a FROM clause. */
    method FinalizeJoins(sqlString: string) returns (r: Result<string, QueryException>)
      requires Valid() && FromPrecedesWhere(sqlString)
      modifies this
      ensures Valid()
      ensures r == JetStatement(sqlString)
      ensures sqlString in old(queryCache) ==>
        queryCache == old(queryCache) && r == Ok(old(queryCache)[sqlString])
      ensures sqlString !in old(queryCache) ==>
        queryCache == if r.Ok? && FindFrom(sqlString).Some? then old(queryCache)[sqlString := r.value] else old(queryCache)
    {
      if sqlString in queryCache {
        return Ok(queryCache[sqlString]);
      }

      var beginOfFrom := match IndexOfIgnoreCase(sqlString, FromKeyword) case Some(k) => k as int case None => -1;
      var endOfFrom := match IndexOfIgnoreCase(sqlString, WhereKeyword) case Some(k) => k as int case None => -1;

      if beginOfFrom < 0 {
        return Ok(sqlString);
      }

      if endOfFrom < 0 {
        endOfFrom := |sqlString|;
      }

      var fromClause := sqlString[beginOfFrom..endOfFrom];
      var transformedFrom := TransformFromClause(fromClause);
      if transformedFrom.Err? {
        return Err(transformedFrom.error);
      }

      var ret := sqlString[..beginOfFrom] + transformedFrom.value + sqlString[endOfFrom..];
      queryCache := queryCache[sqlString := ret];
      return Ok(ret);
    }

    /** Builds the command for a statement: queries go through the join rewrite, anything
        else is passed on as given; the command type and parameter types are forwarded. */
    method GenerateCommand(commandType: CommandType, sqlString: string, parameterTypes: seq<SqlType>)
      returns (r: Result<Command, QueryException>)
      requires Valid() && (IsSelectStatement(sqlString) ==> FromPrecedesWhere(sqlString))
      modifies this
      ensures Valid()
      ensures r.Ok? <==> JetCommandText(sqlString).Ok?
      ensures r.Ok? ==> r.value == Command(commandType, JetCommandText(sqlString).value, parameterTypes)
      ensures r.Err? ==> r.error == JetCommandText(sqlString).error
      ensures !IsSelectStatement(sqlString) ==> queryCache == old(queryCache)
      ensures IsSelectStatement(sqlString) ==>
        queryCache == if sqlString !in old(queryCache) && r.Ok? && FindFrom(sqlString).Some?
          then old(queryCache)[sqlString := r.value.commandText] else old(queryCache)
      ensures forall k :: k in old(queryCache) ==> k in queryCache && queryCache[k] == old(queryCache)[k]
      ensures queryCache.Keys <= old(queryCache).Keys + {sqlString}
    {
      var final: string;
      if IsSelectStatement(sqlString) {
        var finalized := FinalizeJoins(sqlString);
        if finalized.Err? {
          return Err(finalized.error);
        }
        final := finalized.value;
      } else {
        final := sqlString;
      }
      return Ok(Command(commandType, final, parameterTypes));
    }
  }
}
