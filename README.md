# Jet driver query rewriting

The NHibernate Jet (MS Access) driver rewrites every SELECT statement before it is
handed to the OLE DB layer. Jet requires explicit parentheses around chained joins
and will not accept several joined table groups side by side. The driver therefore:

1. recognises a query by its case-insensitive `select` prefix;
2. cuts out the FROM span, from the first case-insensitive `from` up to the first
   case-insensitive `where` (or to the end of the statement);
3. splits that span on `,` into table groups;
4. splits each group on ` join` into segments, puts a `)` before the qualifier
   (` inner`, ` left outer`, ` right outer`) that ends each middle segment, and
   prefixes a space and one `(` per middle segment;
5. when there are several groups, wraps each rewritten group that contains ` join `
   as `(select * from <group>) as jetJoinAlias<i>`;
6. splices the result back between the untouched prefix and suffix, and memoises it in a
   cache keyed by the original statement text.

A malformed chain raises a `QueryException` with a fixed message. It is never cached.

Files:

- `wrappers.dfy`: the `Option` and `Result` datatypes.
- `strings.dfy`: the .NET string operations the rewrite relies on, with their lemmas.
  These are character-by-character and case-insensitive search, `Split`, `Join`,
  `Insert` and decimal formatting.
- `joins.dfy`: the join-block and FROM-clause rewrites. Each is a declarative function
  (`JetJoinBlock`, `JetFromClause`) plus the driver's imperative method, proved equal to
  that function.
- `driver.dfy`:
  - the select test;
  - the FROM-span splice, as the function `JetStatement`;
  - the class `JetDriver`, whose `queryCache` map field is read and written by
    `FinalizeJoins`;
  - `GenerateCommand`.

`JetDriver.Valid()` is the cache invariant. Every cached entry is the successful Jet
form of its key, and its key has a FROM clause. Because `FinalizeJoins` always returns
`JetStatement(s)`, two calls on the same statement return the same result. When the
first call succeeds on a statement with a FROM clause, the second call is answered from
the cache without touching it.

### Behaviour of the code worth noting

- The end of the FROM span is the first `where` anywhere in the statement
  (JetDriver.cs:105).
- The split into segments uses ` join` (JetDriver.cs:168). The wrap test for a group
  uses ` join ` with a trailing space (JetDriver.cs:143).
- The `select` test compares the statement's first six characters, so a statement
  with leading white space is not treated as a query (JetDriver.cs:228).
- A block with exactly one join still gains a leading space: `A inner join B on p`
  becomes ` A inner join B on p` (JetDriver.cs:200-207).
- The FROM span starts at the `from` keyword itself (JetDriver.cs:117), so the keyword
  ends up inside the parentheses. For example,
  `select * from A inner join B on p left outer join C on q` becomes
  `select *  (from A inner join B on p) left outer join C on q`.
- Group 0 of a multi-group clause starts with `from`. Once it is wrapped it reads
  `(select * from  from A ...) as jetJoinAlias0` (JetDriver.cs:145).
- Both failures raise a `QueryException` with the same fixed message,
  `Invalid join syntax. Could not parenthesize the join block properly.`
  (JetDriver.cs:196, 218).

## Model

| member | source | states |
|---|---|---|
| Joins.TransformJoinBlock | src/NHibernate.JetDriver/JetDriver.cs:164-224 | The in-place segment loop returns exactly the declarative rewrite of the block, error cases included. |
| Joins.ParenthesisIndex | src/NHibernate.JetDriver/JetDriver.cs:176-189 | The `)` position is just before the qualifier the segment ends with, checked in the order inner, left outer, right outer. It is -1 when the segment ends with none. |
| Joins.OpenThenJoin | src/NHibernate.JetDriver/JetDriver.cs:200-207 | The StringBuilder holds a space, then `count` opening parentheses, then the segments rejoined on ` join`. |
| Joins.ChainFailsInMiddle | src/NHibernate.JetDriver/JetDriver.cs:191-197 | A segment before the last that has no qualifier makes the whole block fail with the fixed message. |
| Joins.ChainFailsAtEnd | src/NHibernate.JetDriver/JetDriver.cs:216-218 | A last segment that ends with a qualifier (a join still expected) makes the block fail. |
| Joins.ChainCompletes | src/NHibernate.JetDriver/JetDriver.cs:191-207 | Once every middle segment is closed and the last has no qualifier, the loop's array is the closed chain and the output is the successful rewrite. |
| Joins.ClosedUpToStep | src/NHibernate.JetDriver/JetDriver.cs:209-213 | Closing segment i in place advances the array from "closed below i" to "closed below i+1". |
| Joins.NoJoinUnchanged | src/NHibernate.JetDriver/JetDriver.cs:168-223 | A block comes back unchanged if and only if it contains no ` join`. |
| Joins.JoinBlockShape | src/NHibernate.JetDriver/JetDriver.cs:173-214 | For n ≥ 2 segments, a successful rewrite starts with a space and n-2 `(`. The rest splits on ` join` into n segments. The first and last segments are untouched, and each middle one has `)` inserted right before its qualifier. |
| Joins.ChainShape | src/NHibernate.JetDriver/JetDriver.cs:173-214 | The segment-by-segment shape above, for any well-formed chain of marker-free segments. |
| Joins.ClosedSegmentShape | src/NHibernate.JetDriver/JetDriver.cs:178-212 | A closed segment is the segment up to its qualifier, then `)`, then that qualifier (one of the three). |
| Joins.CloseAddsParenthesis | src/NHibernate.JetDriver/JetDriver.cs:212 | Closing a segment adds exactly one `)` and keeps every other character. |
| Joins.ClosedSegmentsCharacters | src/NHibernate.JetDriver/JetDriver.cs:173-214 | The closed chain has the characters of the original chain plus n-2 `)`. |
| Joins.ChainCharacters | src/NHibernate.JetDriver/JetDriver.cs:200-207 | A well-formed chain's rewrite has the chain's characters plus one space, n-2 `(` and n-2 `)`. |
| Joins.JoinBlockCharacters | src/NHibernate.JetDriver/JetDriver.cs:164-224 | A successful rewrite of n ≥ 2 segments is the block's characters plus one space, n-2 `(` and n-2 `)`. Nothing is lost or reordered in count. |
| Joins.JoinBlockParenthesesBalanced | src/NHibernate.JetDriver/JetDriver.cs:200-213 | The rewrite adds as many `(` as `)`, one of each per middle segment. |
| Joins.ClosedSegmentsSplit | src/NHibernate.JetDriver/JetDriver.cs:205 | Rejoining the closed segments on ` join` and splitting again gives back the same segments. |
| Joins.SingleJoin | src/NHibernate.JetDriver/JetDriver.cs:171-207 | With exactly one ` join`, the block only gains a leading space. It fails when its second segment ends with a qualifier. |
| Joins.JoinBlockErrors | src/NHibernate.JetDriver/JetDriver.cs:191-218 | A block fails if and only if some middle segment lacks a qualifier or the last one has one. The error is always the fixed message. |
| Joins.JoinBlockKeepsCommas | src/NHibernate.JetDriver/JetDriver.cs:164-224 | The block rewrite never adds or removes a comma. |
| Joins.AliasesDistinct | src/NHibernate.JetDriver/JetDriver.cs:145 | Two wrapped groups get the same alias if and only if they have the same index. |
| Joins.TransformFromClause | src/NHibernate.JetDriver/JetDriver.cs:133-161 | The group loop returns exactly the declarative FROM-clause rewrite, error propagation included. |
| Joins.WrappedUpToStep | src/NHibernate.JetDriver/JetDriver.cs:142-150 | Rewriting and possibly wrapping group i advances the group array by exactly that group. |
| Joins.FromClauseWithoutJoins | src/NHibernate.JetDriver/JetDriver.cs:133-161 | A FROM clause without any ` join` comes back exactly as it was, whatever its number of groups. |
| Joins.FromClauseErrors | src/NHibernate.JetDriver/JetDriver.cs:140-142 | A FROM clause fails if and only if one of its groups fails. |
| Joins.FromClauseGroups | src/NHibernate.JetDriver/JetDriver.cs:137-153 | A successful multi-group rewrite splits on commas into the same number of groups, in order. Group i is the rewrite of group i, wrapped with alias i exactly when it contains ` join `. |
| Joins.WrapGroupCommaFree | src/NHibernate.JetDriver/JetDriver.cs:143-150 | A comma-free group stays comma-free once rewritten and wrapped. |
| Joins.WrapKeepsCommaFree | src/NHibernate.JetDriver/JetDriver.cs:145 | The wrapper text and the alias add no comma. |
| Joins.JetJoinBlock | src/NHibernate.JetDriver/JetDriver.cs:164-224 | The declarative join-block rewrite. A block without ` join` is returned as it is, and every failure carries the fixed message. |
| Joins.JetChain | src/NHibernate.JetDriver/JetDriver.cs:171-222 | The rewrite of a chain of segments. It succeeds exactly for a lone segment or a well-formed chain. A lone segment is returned as it is. A longer chain's output starts with a space and n-2 `(`. Every failure carries the fixed message. |
| Joins.JetFromClause | src/NHibernate.JetDriver/JetDriver.cs:133-161 | The declarative FROM-clause rewrite. A clause without a comma is rewritten as a single join block with no wrapping. Every failure carries the fixed message. |
| Joins.WrapGroup | src/NHibernate.JetDriver/JetDriver.cs:143-150 | A rewritten group is left as it is exactly when it lacks ` join `. Otherwise it is wrapped, starting with `(select * from ` and ending with `) as ` followed by the group's alias. |
| Strings.Split | src/NHibernate.JetDriver/JetDriver.cs:168-169 | A split always yields at least one piece. JoinSplit, SplitJoin, SplitSingle and SplitPiecesLackSeparator state the rest. |
| Strings.SplitPiecesLackSeparator | src/NHibernate.JetDriver/JetDriver.cs:137 | No piece of a split contains the separator. |
| Strings.IndexOfIgnoreCase | src/NHibernate.JetDriver/JetDriver.cs:104-105 | The case-insensitive search finds the first position where the lower-cased pattern occurs in the lower-cased text. It finds a position exactly when there is one. |
| Driver.IsSelectStatement | src/NHibernate.JetDriver/JetDriver.cs:226-229 | A statement is a query exactly when its first six characters, lower-cased, are `select`. |
| Driver.JetStatement | src/NHibernate.JetDriver/JetDriver.cs:104-125 | The declarative rewrite of a query. With no `from` the query is unchanged. Otherwise it succeeds exactly when its FROM span does, and it keeps the text before the `from` and from the `where` on. Every failure carries the fixed message. |
| Strings.JoinSplit | src/NHibernate.JetDriver/JetDriver.cs:168-169 | Splitting on a separator and rejoining on it is lossless. |
| Strings.SplitJoin | src/NHibernate.JetDriver/JetDriver.cs:205 | Joining separator-free pieces on an overlap-free separator and splitting again returns the pieces. |
| Strings.SplitSingle | src/NHibernate.JetDriver/JetDriver.cs:137-138 | A split gives one piece, the whole text, exactly when the separator is absent. |
| Strings.IndexOf | src/NHibernate.JetDriver/JetDriver.cs:143 | The result is the first occurrence, and it is present exactly when the pattern occurs. |
| Strings.NatToStringInjective | src/NHibernate.JetDriver/JetDriver.cs:145 | Distinct indices format to distinct decimal texts. |
| Driver.SelectTest | src/NHibernate.JetDriver/JetDriver.cs:226-229 | A statement is a query exactly when its first six characters spell `select` in any letter case. |
| Driver.SelectTestIgnoresCase | src/NHibernate.JetDriver/JetDriver.cs:226-229 | A statement and its lower-cased form are classified alike. |
| Driver.NonSelectPassthrough | src/NHibernate.JetDriver/JetDriver.cs:32-40 | Anything that is not a query is sent exactly as given. |
| Driver.FromlessPassthrough | src/NHibernate.JetDriver/JetDriver.cs:104-110 | No FROM clause is found exactly when `from` occurs nowhere in any case. Such a query is returned unchanged. |
| Driver.FromClauseSpan | src/NHibernate.JetDriver/JetDriver.cs:104-117 | The cut-out span starts with the `from` keyword and contains no `where`. |
| Driver.SpliceKeepsContext | src/NHibernate.JetDriver/JetDriver.cs:119-125 | A rewritten query succeeds exactly when its FROM span does. Everything before the `from` and from the `where` on is kept verbatim, with the span's Jet form between them. |
| Driver.NoJoinStatementUnchanged | src/NHibernate.JetDriver/JetDriver.cs:117-125 | A query whose FROM span has no ` join` is returned unchanged. |
| Driver.JetDriver.constructor | src/NHibernate.JetDriver/JetDriver.cs:27 | The driver starts with an empty cache that satisfies the cache invariant. |
| Driver.JetDriver.FinalizeJoins | src/NHibernate.JetDriver/JetDriver.cs:94-131 | The result is always the statement's Jet form. A cache hit returns the stored value and leaves the cache alone. A miss stores exactly the new successful rewrite. A FROM-less statement or a failing rewrite leaves the cache unchanged. The cache invariant is kept. |
| Driver.JetDriver.GenerateCommand | src/NHibernate.JetDriver/JetDriver.cs:29-43 | The command carries the type and parameter types as given, with the rewritten text for a query and the original text otherwise. Errors propagate. Non-queries leave the cache unchanged. For a query, the cache gains exactly this statement's rewritten text when it missed the cache, succeeded and had a FROM clause, and is otherwise unchanged. Old entries are never altered. |

## Left out

- `CreateConnection`, `CreateCommand`, `UseNamedPrefixInParameter` and `NamedPrefix` are left out. They are provider plumbing and constants with no logic.
- The `base.GenerateCommand` call is left out. The OLE DB command is a plain `Command` value holding the type, text and parameter types.
- `SqlString` is modelled as a plain string, and `SqlType` as an opaque stand-in. Their internals are not part of this model.
- `logger.Error` calls are left out. Logging has no effect on the result.
- The `Hashtable` cache is a single-threaded map field. Concurrent access is out of scope.
- `IsCreateOrAlterStatement` and the DDL rewrite are commented out in the source and not modelled.
- EndsWith and IndexOf, which .NET runs with the current culture, are modelled as ordinal comparisons.
- Case-insensitive search lower-cases ASCII letters only. Culture-specific case folding is not modelled.
- Driver.JetDriver.FinalizeJoins requires that no `where` comes before the first `from`. In that case the source's substring call would raise an argument error, which is not modelled. Driver.JetDriver.GenerateCommand inherits the same requirement for queries.
- The group loop stops at the first failing group, whereas the declarative form only says that some group fails. Both yield the same fixed error, so the results agree.
- A `QueryException` is modelled by its message alone. Its other state (stack trace, inner exception) is not modelled.
