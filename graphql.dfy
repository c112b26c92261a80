/** Last-commit dates of internal/github/graphql.go: paths are queried in
    batches of 100, one aliased `history` field per path, and the replies are
    merged back in path order. The GraphQL transport is abstract: it maps a
    query string to the reply's `target` object (alias to the committed dates
    of that path's history nodes) or to an error. Dates are opaque (`D`). */
module GraphQL {
  import opened Results
  import opened Seqs
  import opened GoStrings
  import opened Types

  /** Paths queried per request. */
  const BatchSize := 100

  datatype CommitInfo<D> = CommitInfo(path: string, committedDate: D)

  /** The `target` object of a reply: alias to the dates of its history nodes. */
  type HistoryReply<D> = map<string, seq<D>>

  datatype GraphQLError = FetchFailed(cause: string)

  function Min(a: int, b: int): int { if a < b then a else b }

  // ------------------------------------------------------------------ aliases

  /** The alias of the `j`-th path of a batch: "file0", "file1", ... */
  function Alias(j: nat): string
  {
    "file" + Itoa(j)
  }

  /** Distinct positions in a batch get distinct aliases, so no reply field is
      read back for the wrong path. */
  lemma AliasInjective(i: nat, j: nat)
    ensures Alias(i) == Alias(j) ==> i == j
  {
    if Alias(i) == Alias(j) {
      assert Itoa(i) == Alias(i)[4..];
      assert Itoa(j) == Alias(j)[4..];
      ItoaInjective(i, j);
    }
  }

  // ------------------------------------------------------------------ batches

  /** The batches the loop `for i := 0; i < len(paths); i += batchSize`
      visits from offset `i` on. */
  function BatchesFrom(paths: seq<string>, i: nat): seq<seq<string>>
    decreases |paths| - i
  {
    if i >= |paths| then [] else [paths[i..Min(i + BatchSize, |paths|)]] + BatchesFrom(paths, i + BatchSize)
  }

  function Batches(paths: seq<string>): seq<seq<string>>
  {
    BatchesFrom(paths, 0)
  }

  /** The batches are the consecutive slices of at most 100 paths: together
      they hold every path once, in order, and there are ceil(n / 100) of them. */
  lemma {:induction false} BatchesFromCover(paths: seq<string>, i: nat)
    requires i <= |paths|
    ensures Concat(BatchesFrom(paths, i)) == paths[i..]
    ensures |BatchesFrom(paths, i)| == (|paths| - i + BatchSize - 1) / BatchSize
    ensures forall k :: 0 <= k < |BatchesFrom(paths, i)| ==>
      BatchesFrom(paths, i)[k] == paths[i + k * BatchSize..Min(i + k * BatchSize + BatchSize, |paths|)]
    decreases |paths| - i
  {
    if i < |paths| {
      var end := Min(i + BatchSize, |paths|);
      BatchesFromCover(paths, end);
      if end < |paths| {
        assert end == i + BatchSize;
      } else {
        assert BatchesFrom(paths, i + BatchSize) == [];
      }
      assert paths[i..] == paths[i..end] + paths[end..];
      var bs := BatchesFrom(paths, i);
      forall k | 0 <= k < |bs|
        ensures bs[k] == paths[i + k * BatchSize..Min(i + k * BatchSize + BatchSize, |paths|)]
      {
        if k > 0 {
          assert bs[k] == BatchesFrom(paths, i + BatchSize)[k - 1];
          assert i + BatchSize + (k - 1) * BatchSize == i + k * BatchSize;
        }
      }
    }
  }

  /** 150 paths are sent as two batches. */
  lemma HundredFiftyPathsTwoBatches(paths: seq<string>)
    requires |paths| == 150
    ensures |Batches(paths)| == 2
    ensures Batches(paths) == [paths[..100], paths[100..]]
  {
    assert BatchesFrom(paths, 200) == [];
    assert BatchesFrom(paths, 100) == [paths[100..150]];
    assert paths[100..150] == paths[100..];
  }

  // ------------------------------------------------------------------- query

  /** The fixed opening of every query; `quote` stands for Go's `%q`. */
  function Header(owner: string, repo: string, ref: string, quote: string -> string): string
  {
    "{repository(owner:" + quote(owner) + ",name:" + quote(repo) + "){ref(qualifiedName:" + quote(ref) + "){target{...on Commit{"
  }

  /** The field asking for the newest commit that touched one path;
      `escaped` is the path as a JSON string. */
  function HistoryClause(j: nat, escaped: string): string
  {
    Alias(j) + ":history(first:1,path:" + escaped + "){nodes{committedDate}}"
  }

  /** One clause per path of `paths`, numbered from `k`; `marshal` stands for
      `json.Marshal` on a string. */
  function ClausesFrom(paths: seq<string>, k: nat, marshal: string -> string): string
  {
    if paths == [] then "" else HistoryClause(k, marshal(paths[0])) + ClausesFrom(paths[1..], k + 1, marshal)
  }

  const Footer := "}}}}}"

  function QueryText(owner: string, repo: string, ref: string, paths: seq<string>,
                     quote: string -> string, marshal: string -> string): string
  {
    Header(owner, repo, ref, quote) + ClausesFrom(paths, 0, marshal) + Footer
  }

  /** Adding a path at the end adds its clause, numbered by its position, at the end. */
  lemma {:induction false} ClausesSnoc(paths: seq<string>, x: string, k: nat, marshal: string -> string)
    ensures ClausesFrom(paths + [x], k, marshal) == ClausesFrom(paths, k, marshal) + HistoryClause(k + |paths|, marshal(x))
  {
    if paths == [] {
      assert [x][1..] == [];
    } else {
      assert (paths + [x])[1..] == paths[1..] + [x];
      ClausesSnoc(paths[1..], x, k + 1, marshal);
    }
  }

  /** The `j`-th path is written under alias `file<j>`: the clauses split
      around it. */
  lemma {:induction false} ClauseAt(paths: seq<string>, j: nat, marshal: string -> string)
    requires j < |paths|
    ensures ClausesFrom(paths, 0, marshal) ==
      ClausesFrom(paths[..j], 0, marshal) + HistoryClause(j, marshal(paths[j])) + ClausesFrom(paths[j + 1..], j + 1, marshal)
  {
    var front, x, back := paths[..j], paths[j], paths[j + 1..];
    assert (front + [x]) + back == paths;
    ClausesSplit(front + [x], back, 0, marshal);
    ClausesSnoc(front, x, 0, marshal);
  }

  lemma {:induction false} ClausesSplit(a: seq<string>, b: seq<string>, k: nat, marshal: string -> string)
    ensures ClausesFrom(a + b, k, marshal) == ClausesFrom(a, k, marshal) + ClausesFrom(b, k + |a|, marshal)
  {
    if a == [] {
      assert a + b == b;
    } else {
      assert (a + b)[1..] == a[1..] + b;
      ClausesSplit(a[1..], b, k + 1, marshal);
    }
  }

  /** `buildFileHistoryQuery`: the header, one clause per path in order, then
      the closing braces. */
  method BuildFileHistoryQuery(owner: string, repo: string, ref: string, paths: seq<string>,
                               quote: string -> string, marshal: string -> string)
    returns (query: string)
    ensures query == QueryText(owner, repo, ref, paths, quote, marshal)
  {
    var head := Header(owner, repo, ref, quote);
    var buf := head;
    var i := 0;
    while i < |paths|
      invariant 0 <= i <= |paths|
      invariant buf == head + ClausesFrom(paths[..i], 0, marshal)
    {
      var clause := HistoryClause(i, marshal(paths[i]));
      ClausesSnoc(paths[..i], paths[i], 0, marshal);
      assert paths[..i] + [paths[i]] == paths[..i + 1];
      AppendAssoc(head, ClausesFrom(paths[..i], 0, marshal), clause);
      buf := buf + clause;
      i := i + 1;
    }
    assert paths[..i] == paths;
    query := buf + Footer;
  }

  lemma AppendAssoc(a: string, b: string, c: string)
    ensures (a + b) + c == a + (b + c)
  {
  }

  /** The query for a single path, written out. */
  lemma SinglePathQuery(owner: string, repo: string, ref: string, p: string,
                        quote: string -> string, marshal: string -> string)
    ensures QueryText(owner, repo, ref, [p], quote, marshal) ==
      Header(owner, repo, ref, quote) + "file0:history(first:1,path:" + marshal(p) + "){nodes{committedDate}}" + "}}}}}"
  {
    assert Itoa(0) == "0";
    assert Alias(0) == "file0";
    assert [p][1..] == [];
    assert ClausesFrom([p], 0, marshal) == HistoryClause(0, marshal(p)) + "";
  }

  // ------------------------------------------------------------------- merge

  /** The entries one reply contributes for its batch, in batch order: a path
      whose alias is missing or whose history is empty gives nothing; any
      other gives the date of its first history node. */
  function Merge<D>(batch: seq<string>, reply: HistoryReply<D>): seq<CommitInfo<D>>
  {
    if batch == [] then []
    else
      var j := |batch| - 1;
      Merge(batch[..j], reply) +
        (if Alias(j) in reply && |reply[Alias(j)]| > 0 then [CommitInfo(batch[j], reply[Alias(j)][0])] else [])
  }

  function PathsOf<D>(infos: seq<CommitInfo<D>>): (ps: seq<string>)
    ensures |ps| == |infos|
    ensures forall i :: 0 <= i < |infos| ==> ps[i] == infos[i].path
  {
    if infos == [] then [] else [infos[0].path] + PathsOf(infos[1..])
  }

  lemma {:induction false} PathsOfAppend<D>(a: seq<CommitInfo<D>>, b: seq<CommitInfo<D>>)
    ensures PathsOf(a + b) == PathsOf(a) + PathsOf(b)
  {
  }

  /** Which path of the batch sits at position `j` of the merge, and why it is there. */
  predicate Reported<D>(batch: seq<string>, reply: HistoryReply<D>, j: nat)
  {
    j < |batch| && Alias(j) in reply && |reply[Alias(j)]| > 0
  }

  /** Position `i` of the batch reports `info`: its alias came back with a
      history whose first node carries `info`'s date. */
  ghost predicate ReportsAt<D>(batch: seq<string>, reply: HistoryReply<D>, info: CommitInfo<D>, i: int)
  {
    0 <= i < |batch| && batch[i] == info.path && Reported(batch, reply, i) && reply[Alias(i)][0] == info.committedDate
  }

  /** A path is reported, with the first node's date, exactly when its alias
      is present with a non-empty history. */
  lemma MergeMembership<D>(batch: seq<string>, reply: HistoryReply<D>, info: CommitInfo<D>)
    ensures info in Merge(batch, reply) <==> exists i :: ReportsAt(batch, reply, info, i)
  {
    if info in Merge(batch, reply) {
      MergedIsReported(batch, reply, info);
    }
    if exists i :: ReportsAt(batch, reply, info, i) {
      var i :| ReportsAt(batch, reply, info, i);
      ReportedIsMerged(batch, reply, info, i);
    }
  }

  lemma {:induction false} MergedIsReported<D>(batch: seq<string>, reply: HistoryReply<D>, info: CommitInfo<D>)
    requires info in Merge(batch, reply)
    ensures exists i :: ReportsAt(batch, reply, info, i)
  {
    var j := |batch| - 1;
    var front := batch[..j];
    var tail := if Reported(batch, reply, j) then [CommitInfo(batch[j], reply[Alias(j)][0])] else [];
    assert Merge(batch, reply) == Merge(front, reply) + tail;
    if info in Merge(front, reply) {
      MergedIsReported(front, reply, info);
      var i :| ReportsAt(front, reply, info, i);
      assert ReportsAt(batch, reply, info, i);
    } else {
      assert info in tail;
      assert ReportsAt(batch, reply, info, j);
    }
  }

  lemma {:induction false} ReportedIsMerged<D>(batch: seq<string>, reply: HistoryReply<D>, info: CommitInfo<D>, i: int)
    requires ReportsAt(batch, reply, info, i)
    ensures info in Merge(batch, reply)
  {
    var j := |batch| - 1;
    var front := batch[..j];
    var tail := if Reported(batch, reply, j) then [CommitInfo(batch[j], reply[Alias(j)][0])] else [];
    assert Merge(batch, reply) == Merge(front, reply) + tail;
    if i < j {
      assert ReportsAt(front, reply, info, i);
      ReportedIsMerged(front, reply, info, i);
    } else {
      assert tail == [info];
    }
  }

  /** The paths of a merge are the batch's paths, in batch order. */
  lemma {:induction false} MergeIsSubsequence<D>(batch: seq<string>, reply: HistoryReply<D>)
    ensures IsSubsequence(PathsOf(Merge(batch, reply)), batch)
  {
    if batch == [] {
      SubsequenceEmpty(batch);
    } else {
      var j := |batch| - 1;
      MergeIsSubsequence(batch[..j], reply);
      assert batch == batch[..j] + [batch[j]];
      var front := Merge(batch[..j], reply);
      SubsequenceSnoc(PathsOf(front), batch[..j], batch[j]);
      if Reported(batch, reply, j) {
        var info := CommitInfo(batch[j], reply[Alias(j)][0]);
        assert Merge(batch, reply) == front + [info];
        PathsOfAppend(front, [info]);
        assert PathsOf([info]) == [batch[j]];
        assert PathsOf(Merge(batch, reply)) == PathsOf(front) + [batch[j]];
      } else {
        assert Merge(batch, reply) == front;
      }
    }
  }

  // -------------------------------------------------------- GetFileCommitDates

  /** The transport's answer to the query for one batch of paths of `repo`. */
  function Answerer<D>(repo: Repository, quote: string -> string, marshal: string -> string,
                       transport: string -> Result<HistoryReply<D>, string>): seq<string> -> Result<HistoryReply<D>, string>
  {
    batch => transport(QueryText(repo.owner, repo.name, repo.ref, batch, quote, marshal))
  }

  function PrependInfos<D>(pre: seq<CommitInfo<D>>, r: Result<seq<CommitInfo<D>>, GraphQLError>): Result<seq<CommitInfo<D>>, GraphQLError>
  {
    match r
    case Ok(rest) => Ok(pre + rest)
    case Err(e) => Err(e)
  }

  lemma PrependInfosNil<D>(r: Result<seq<CommitInfo<D>>, GraphQLError>)
    ensures PrependInfos([], r) == r
  {
    if r.Ok? {
      assert [] + r.value == r.value;
    }
  }

  lemma PrependInfosTwice<D>(a: seq<CommitInfo<D>>, b: seq<CommitInfo<D>>, r: Result<seq<CommitInfo<D>>, GraphQLError>)
    ensures PrependInfos(a, PrependInfos(b, r)) == PrependInfos(a + b, r)
  {
    if r.Ok? {
      assert a + (b + r.value) == (a + b) + r.value;
    }
  }

  /** The merged dates of the batches from offset `i` on; the first batch whose
      query fails fails the whole call. */
  function DatesFrom<D>(paths: seq<string>, i: nat, answer: seq<string> -> Result<HistoryReply<D>, string>): Result<seq<CommitInfo<D>>, GraphQLError>
    decreases |paths| - i
  {
    if i >= |paths| then Ok([])
    else
      var batch := paths[i..Min(i + BatchSize, |paths|)];
      match answer(batch)
      case Err(e) => Err(FetchFailed(e))
      case Ok(reply) => PrependInfos(Merge(batch, reply), DatesFrom(paths, i + BatchSize, answer))
  }

  /** `GetFileCommitDates`: query the paths batch by batch and merge the
      replies in path order. */
  method GetFileCommitDates<D>(repo: Repository, paths: seq<string>, quote: string -> string, marshal: string -> string,
                               transport: string -> Result<HistoryReply<D>, string>)
    returns (r: Result<seq<CommitInfo<D>>, GraphQLError>)
    ensures r == DatesFrom(paths, 0, Answerer(repo, quote, marshal, transport))
    ensures r.Ok? ==> IsSubsequence(PathsOf(r.value), paths) && |r.value| <= |paths|
  {
    ghost var answer := Answerer(repo, quote, marshal, transport);
    if |paths| == 0 {
      return Ok([]);
    }
    var results: seq<CommitInfo<D>> := [];
    var i := 0;
    PrependInfosNil(DatesFrom(paths, 0, answer));
    while i < |paths|
      invariant DatesFrom(paths, 0, answer) == PrependInfos(results, DatesFrom(paths, i, answer))
      decreases |paths| - i
    {
      var end := Min(i + BatchSize, |paths|);
      var batch := paths[i..end];
      var query := BuildFileHistoryQuery(repo.owner, repo.name, repo.ref, batch, quote, marshal);
      var response := transport(query);
      if response.Err? {
        return Err(FetchFailed(response.error));
      }
      var reply := response.value;
      var merged := MergeReply(batch, reply);
      PrependInfosTwice(results, merged, DatesFrom(paths, i + BatchSize, answer));
      results := results + merged;
      i := i + BatchSize;
    }
    r := Ok(results);
    assert DatesFrom(paths, i, answer) == Ok([]);
    assert results + [] == results;
    DatesAreSubsequence(paths, 0, answer);
    SubsequenceMembers(PathsOf(results), paths);
  }

  /** The merge loop of `GetFileCommitDates` for one batch: the paths whose
      alias came back with a history, in batch order, each with the date of
      its first node. */
  method MergeReply<D>(batch: seq<string>, reply: HistoryReply<D>) returns (infos: seq<CommitInfo<D>>)
    ensures infos == Merge(batch, reply)
  {
    infos := [];
    var j := 0;
    while j < |batch|
      invariant 0 <= j <= |batch|
      invariant infos == Merge(batch[..j], reply)
    {
      assert batch[..j + 1][..j] == batch[..j];
      var alias := Alias(j);
      if alias in reply && |reply[alias]| > 0 {
        infos := infos + [CommitInfo(batch[j], reply[alias][0])];
      }
      j := j + 1;
    }
    assert batch[..j] == batch;
  }

  /** Reported paths are input paths, in input order: never more results than
      paths, and no path twice when the input has none twice. */
  lemma {:induction false} DatesAreSubsequence<D>(paths: seq<string>, i: nat, answer: seq<string> -> Result<HistoryReply<D>, string>)
    requires i <= |paths|
    ensures DatesFrom(paths, i, answer).Ok? ==> IsSubsequence(PathsOf(DatesFrom(paths, i, answer).value), paths[i..])
    decreases |paths| - i
  {
    if i < |paths| {
      var end := Min(i + BatchSize, |paths|);
      var batch := paths[i..end];
      if answer(batch).Ok? && DatesFrom(paths, i, answer).Ok? {
        var reply := answer(batch).value;
        DatesAreSubsequence(paths, end, answer);
        if end < |paths| {
          assert end == i + BatchSize;
        } else {
          assert DatesFrom(paths, i + BatchSize, answer) == Ok([]);
          SubsequenceEmpty(paths[end..]);
        }
        var rest := DatesFrom(paths, i + BatchSize, answer).value;
        MergeIsSubsequence(batch, reply);
        PathsOfAppend(Merge(batch, reply), rest);
        SubsequenceAppend(PathsOf(Merge(batch, reply)), batch, PathsOf(rest), paths[end..]);
        assert batch + paths[end..] == paths[i..];
      }
    } else {
      SubsequenceEmpty(paths[i..]);
    }
  }

  lemma DatesNoDuplicates<D>(paths: seq<string>, answer: seq<string> -> Result<HistoryReply<D>, string>)
    requires NoDuplicates(paths)
    ensures DatesFrom(paths, 0, answer).Ok? ==> NoDuplicates(PathsOf(DatesFrom(paths, 0, answer).value))
  {
    DatesAreSubsequence(paths, 0, answer);
    assert paths[0..] == paths;
    if DatesFrom(paths, 0, answer).Ok? {
      SubsequenceNoDuplicates(PathsOf(DatesFrom(paths, 0, answer).value), paths);
    }
  }

  /** All or nothing: the call fails exactly when the query of some batch fails. */
  lemma {:induction false} DatesAllOrNothing<D>(paths: seq<string>, i: nat, answer: seq<string> -> Result<HistoryReply<D>, string>)
    ensures DatesFrom(paths, i, answer).Err? <==> exists b :: b in BatchesFrom(paths, i) && answer(b).Err?
    decreases |paths| - i
  {
    if i < |paths| {
      DatesAllOrNothing(paths, i + BatchSize, answer);
      var batch := paths[i..Min(i + BatchSize, |paths|)];
      assert BatchesFrom(paths, i) == [batch] + BatchesFrom(paths, i + BatchSize);
    }
  }

  /** A successful call reports a record exactly when the merge of some
      batch's reply holds it. */
  lemma {:induction false} DatesMembership<D>(paths: seq<string>, i: nat, answer: seq<string> -> Result<HistoryReply<D>, string>,
                                              info: CommitInfo<D>)
    requires DatesFrom(paths, i, answer).Ok?
    ensures info in DatesFrom(paths, i, answer).value <==>
      exists b :: b in BatchesFrom(paths, i) && answer(b).Ok? && info in Merge(b, answer(b).value)
    decreases |paths| - i
  {
    if i < |paths| {
      var batch := paths[i..Min(i + BatchSize, |paths|)];
      var reply := answer(batch).value;
      var later := BatchesFrom(paths, i + BatchSize);
      var rest := DatesFrom(paths, i + BatchSize, answer).value;
      DatesMembership(paths, i + BatchSize, answer, info);
      assert BatchesFrom(paths, i) == [batch] + later;
      assert DatesFrom(paths, i, answer).value == Merge(batch, reply) + rest;
      if info in Merge(batch, reply) {
        assert batch in BatchesFrom(paths, i);
      } else if info in rest {
        var b :| b in later && answer(b).Ok? && info in Merge(b, answer(b).value);
        assert b in BatchesFrom(paths, i);
      }
      if exists b :: b in BatchesFrom(paths, i) && answer(b).Ok? && info in Merge(b, answer(b).value) {
        var b :| b in BatchesFrom(paths, i) && answer(b).Ok? && info in Merge(b, answer(b).value);
        if b != batch {
          assert b in later;
        }
      }
    }
  }

  /** A successful call reports a path with a date exactly when, in the reply
      to that path's batch, the path's alias holds a non-empty history whose
      first node carries that date. */
  lemma DatesReported<D>(paths: seq<string>, answer: seq<string> -> Result<HistoryReply<D>, string>, info: CommitInfo<D>)
    requires DatesFrom(paths, 0, answer).Ok?
    ensures info in DatesFrom(paths, 0, answer).value <==>
      exists b :: b in Batches(paths) && answer(b).Ok? && exists j :: ReportsAt(b, answer(b).value, info, j)
  {
    DatesMembership(paths, 0, answer, info);
    forall b | b in Batches(paths) && answer(b).Ok?
      ensures info in Merge(b, answer(b).value) <==> exists j :: ReportsAt(b, answer(b).value, info, j)
    {
      MergeMembership(b, answer(b).value, info);
    }
  }

  /** No paths, no batch: nothing is queried and nothing is reported. */
  lemma NoPathsNoQuery<D>(answer: seq<string> -> Result<HistoryReply<D>, string>)
    ensures Batches([]) == []
    ensures DatesFrom([], 0, answer) == Ok([])
  {
  }
}
