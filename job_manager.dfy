/** JobManager: ticking a job pushes the same state to its line items' checkboxes, and the rows
    of the job/line-item join for one ship date are grouped into jobs. The database is replaced
    by its results: the joined rows in query order and the line-item lookup per job id. */
module JobManager {
  import opened Base
  import opened Calendar
  import opened Beans

  // ---------------------------------------------------------------------------
  // jobCheckboxChanged

  /** The detail ids of a job's line items, in list order. */
  function DetailIds(items: seq<OrderDetail>): (ids: seq<int>)
    ensures |ids| == |items|
    ensures forall k :: 0 <= k < |items| ==> ids[k] == items[k].id
  {
    seq(|items|, k requires 0 <= k < |items| => items[k].id)
  }

  /** Every id of the list has a box. */
  predicate Listed(boxes: map<ItemKey, bool>, ids: seq<int>) {
    forall k :: 0 <= k < |ids| ==> DetailItem(ids[k]) in boxes
  }

  /** Setting the boxes of the rows `ids`, one after the other, to `v`: the resulting boxes, and the
      ids whose box changed value, in order (the changes a value-change listener on a box would be
      told about). */
  function Cascade(boxes: map<ItemKey, bool>, ids: seq<int>, v: bool): (r: (map<ItemKey, bool>, seq<int>))
    requires Listed(boxes, ids)
    ensures r.0.Keys == boxes.Keys
    decreases |ids|
  {
    if ids == [] then (boxes, [])
    else
      var front := Cascade(boxes, ids[..|ids| - 1], v);
      var key := DetailItem(ids[|ids| - 1]);
      (front.0[key := v], front.1 + if front.0[key] != v then [ids[|ids| - 1]] else [])
  }

  /** After the cascade every listed row's box is `v`; no other box changes and no box is added. */
  lemma {:induction false} CascadeSetsBoxes(boxes: map<ItemKey, bool>, ids: seq<int>, v: bool)
    requires Listed(boxes, ids)
    ensures forall key :: key in boxes ==>
              Cascade(boxes, ids, v).0[key] == if key.DetailItem? && key.detailId in ids then v else boxes[key]
    decreases |ids|
  {
    if ids != [] {
      var front := ids[..|ids| - 1];
      CascadeSetsBoxes(boxes, front, v);
      assert ids == front + [ids[|ids| - 1]];
    }
  }

  /** A row is reported exactly when it is listed and its box did not already show `v`, and it is
      reported once even when listed twice: a box that already matches is not processed again. */
  lemma {:induction false} CascadeFiresChanges(boxes: map<ItemKey, bool>, ids: seq<int>, v: bool)
    requires Listed(boxes, ids)
    ensures forall id :: id in Cascade(boxes, ids, v).1 <==> id in ids && boxes[DetailItem(id)] != v
    ensures forall i, j :: 0 <= i < j < |Cascade(boxes, ids, v).1| ==>
              Cascade(boxes, ids, v).1[i] != Cascade(boxes, ids, v).1[j]
    decreases |ids|
  {
    if ids != [] {
      var front := ids[..|ids| - 1];
      var last := ids[|ids| - 1];
      CascadeFiresChanges(boxes, front, v);
      CascadeSetsBoxes(boxes, front, v);
      assert ids == front + [last];
      var m := Cascade(boxes, front, v).0;
      assert m[DetailItem(last)] != v <==> last !in front && boxes[DetailItem(last)] != v;
    }
  }

  /** A prefix of a list whose rows all have boxes has boxes too. */
  lemma ListedPrefix(boxes: map<ItemKey, bool>, ids: seq<int>, i: int)
    requires Listed(boxes, ids) && 0 <= i <= |ids|
    ensures Listed(boxes, ids[..i])
  {
  }

  /** One more row of the cascade, seen from a prefix of the list. */
  lemma CascadeSnoc(boxes: map<ItemKey, bool>, ids: seq<int>, i: int, v: bool)
    requires Listed(boxes, ids) && 0 <= i < |ids|
    ensures Listed(boxes, ids[..i]) && Listed(boxes, ids[..i + 1])
    ensures DetailItem(ids[i]) in Cascade(boxes, ids[..i], v).0
    ensures Cascade(boxes, ids[..i + 1], v) ==
            (Cascade(boxes, ids[..i], v).0[DetailItem(ids[i]) := v],
             Cascade(boxes, ids[..i], v).1 + if Cascade(boxes, ids[..i], v).0[DetailItem(ids[i])] != v then [ids[i]] else [])
  {
    ListedPrefix(boxes, ids, i);
    ListedPrefix(boxes, ids, i + 1);
    assert ids[..i + 1][..i] == ids[..i];
  }

  /** The loop of jobCheckboxChanged: set the box of each line item, in list order, to `v`,
      collecting the ids whose box changed value. */
  method SetItemBoxes(items: seq<OrderDetail>, v: bool, treeTable: TreeTable) returns (fired: seq<int>)
    requires Listed(treeTable.checked, DetailIds(items))
    modifies treeTable`checked
    ensures treeTable.checked == Cascade(old(treeTable.checked), DetailIds(items), v).0
    ensures fired == Cascade(old(treeTable.checked), DetailIds(items), v).1
  {
    ghost var ids := DetailIds(items);
    ghost var boxes := treeTable.checked;
    fired := [];
    for i := 0 to |items|
      invariant treeTable.checked == Cascade(boxes, ids[..i], v).0
      invariant fired == Cascade(boxes, ids[..i], v).1
    {
      var key := DetailItem(items[i].id);
      CascadeSnoc(boxes, ids, i, v);
      if treeTable.checked[key] != v {
        fired := fired + [items[i].id];
      }
      treeTable.checked := treeTable.checked[key := v];
    }
    assert ids[..|items|] == ids;
  }

  /** jobCheckboxChanged: stamp (or clear) the job, then set the checkbox of each of its line items,
      in list order, to the job's new state. The line items' own stamps are left alone: no listener
      is registered on the line-item boxes. The tree table must hold a row for every line item,
      as the source dereferences each. Returns the ids whose box changed value. */
  method JobCheckboxChanged(boxChecked: bool, now: Timestamp, job: Job, treeTable: TreeTable)
    returns (fired: seq<int>)
    requires forall od :: od in job.orderDetailList ==> DetailItem(od.id) in treeTable.checked
    modifies job`jobCompleted, treeTable`checked
    ensures job.jobCompleted == CompletedStamp(boxChecked, now)
    ensures treeTable.checked == Cascade(old(treeTable.checked), DetailIds(job.orderDetailList), boxChecked).0
    ensures fired == Cascade(old(treeTable.checked), DetailIds(job.orderDetailList), boxChecked).1
  {
    var completedStamp := CompletedStamp(boxChecked, now);
    job.jobCompleted := completedStamp;

    var items := job.orderDetailList;
    assert Listed(treeTable.checked, DetailIds(items)) by {
      var ids := DetailIds(items);
      forall k | 0 <= k < |ids|
        ensures DetailItem(ids[k]) in treeTable.checked
      {
        assert items[k] in items;
      }
    }
    fired := SetItemBoxes(items, boxChecked, treeTable);
  }

  // ---------------------------------------------------------------------------
  // getAllJobsByDate / getJobsByDate: grouping the joined rows into jobs

  /** One row of the join of Job and OrderDetail, with the columns the grouping reads. */
  datatype Row = Row(shipDate: Day, jobId: string, customerName: string,
                     proofSpecDate: Option<Timestamp>, jobCompleted: Option<Timestamp>)

  /** Row `i` opens a job when its job id differs from the previous row's; before the first
      row the remembered id is the empty string. */
  predicate OpensJob(rows: seq<Row>, i: int)
    requires 0 <= i < |rows|
  {
    rows[i].jobId != if i == 0 then "" else rows[i - 1].jobId
  }

  /** The positions of the rows that open jobs, in row order. */
  function Heads(rows: seq<Row>): (hs: seq<int>)
    ensures forall k :: 0 <= k < |hs| ==> 0 <= hs[k] < |rows|
  {
    if rows == [] then []
    else Heads(rows[..|rows| - 1]) + if OpensJob(rows, |rows| - 1) then [|rows| - 1] else []
  }

  /** Exactly the rows that open jobs are heads, and they are listed in increasing order. */
  lemma {:induction false} HeadsAreOpeningRows(rows: seq<Row>)
    ensures forall i :: i in Heads(rows) <==> 0 <= i < |rows| && OpensJob(rows, i)
    ensures forall k, l :: 0 <= k < l < |Heads(rows)| ==> Heads(rows)[k] < Heads(rows)[l]
  {
    if rows != [] {
      var front := rows[..|rows| - 1];
      HeadsAreOpeningRows(front);
      assert forall i :: 0 <= i < |front| ==> (OpensJob(front, i) <==> OpensJob(rows, i));
    }
  }

  /** The remembered id starts as "", so the first row opens the first job unless its id is "". */
  lemma FirstRowOpens(rows: seq<Row>)
    requires rows != []
    ensures (Heads(rows) != [] && Heads(rows)[0] == 0) <==> rows[0].jobId != ""
  {
    HeadsAreOpeningRows(rows);
    if rows[0].jobId != "" {
      assert 0 in Heads(rows);
    }
  }

  /** The last row carries the job id of the last job opened, or "" when no job has opened. */
  lemma {:induction false} LastRowInLastJob(rows: seq<Row>)
    requires rows != []
    ensures Heads(rows) == [] ==> rows[|rows| - 1].jobId == ""
    ensures Heads(rows) != [] ==> rows[Heads(rows)[|Heads(rows)| - 1]].jobId == rows[|rows| - 1].jobId
  {
    var n := |rows|;
    if !OpensJob(rows, n - 1) && n > 1 {
      var front := rows[..n - 1];
      LastRowInLastJob(front);
    }
  }

  /** Consecutive jobs have different ids: a run of rows with one id collapses into one job. */
  lemma {:induction false} AdjacentJobsDiffer(rows: seq<Row>)
    ensures forall k :: 0 < k < |Heads(rows)| ==> rows[Heads(rows)[k]].jobId != rows[Heads(rows)[k - 1]].jobId
  {
    if rows != [] {
      var n := |rows|;
      var front := rows[..n - 1];
      AdjacentJobsDiffer(front);
      if OpensJob(rows, n - 1) && Heads(front) != [] {
        LastRowInLastJob(front);
      }
    }
  }

  /** No job is opened exactly when every row has the empty job id (in particular with no rows). */
  lemma NoJobsIffBlankIds(rows: seq<Row>)
    ensures Heads(rows) == [] <==> forall i :: 0 <= i < |rows| ==> rows[i].jobId == ""
  {
    HeadsAreOpeningRows(rows);
    if Heads(rows) == [] {
      forall i | 0 <= i < |rows|
        ensures rows[i].jobId == ""
      {
        BlankPrefix(rows, i);
      }
    } else {
      var h := Heads(rows)[0];
      assert h in Heads(rows);
    }
  }

  lemma {:induction false} BlankPrefix(rows: seq<Row>, i: int)
    requires 0 <= i < |rows|
    requires forall j :: 0 <= j <= i ==> !OpensJob(rows, j)
    ensures rows[i].jobId == ""
  {
    assert !OpensJob(rows, i);
    if i > 0 {
      BlankPrefix(rows, i - 1);
    }
  }

  /** A run of equal ids opens one job, but the same id after another run opens a second one:
      rows with ids A, A, B, A give jobs at rows 0, 2 and 3. */
  lemma RepeatedIdOpensSecondJob(a: Row, b: Row)
    requires a.jobId != "" && b.jobId != "" && a.jobId != b.jobId
    ensures Heads([a, a, b, a]) == [0, 2, 3]
  {
    var rows := [a, a, b, a];
    assert rows[..3] == [a, a, b] && rows[..3][..2] == [a, a] && rows[..3][..2][..1] == [a];
    assert Heads([a]) == [0] by {
      assert [a][..0] == [];
    }
    assert Heads([a, a]) == [0] by {
      assert [a, a][..1] == [a];
    }
    assert Heads([a, a, b]) == [0, 2];
  }

  /** OrderDetailManager.getRows: the line items stored under a job id; a job id with no
      line items yields the empty list. */
  function DetailsFor(details: map<string, seq<OrderDetail>>, jobId: string): (items: seq<OrderDetail>)
    ensures jobId !in details ==> items == []
    ensures jobId in details ==> items == details[jobId]
  {
    if jobId in details then details[jobId] else []
  }

  /** A job bean built from a head row: the row's columns and the line items looked up by its id. */
  predicate BuiltFrom(job: Job, row: Row, details: map<string, seq<OrderDetail>>)
    reads job
  {
    job.shipDate == row.shipDate && job.jobId == row.jobId && job.customerName == row.customerName
    && job.proofSpecDate == row.proofSpecDate && job.jobCompleted == row.jobCompleted
    && job.orderDetailList == DetailsFor(details, row.jobId)
  }

  /** The jobs of a list that are not completed, in list order. */
  function Incomplete(jobs: seq<Job>): (r: seq<Job>)
    reads jobs
    ensures |r| <= |jobs|
  {
    if jobs == [] then []
    else
      var last := jobs[|jobs| - 1];
      Incomplete(jobs[..|jobs| - 1]) + if last.jobCompleted.None? then [last] else []
  }

  /** Appending a job appends it to the incomplete list exactly when it has no completion stamp. */
  lemma IncompleteSnoc(jobs: seq<Job>, j: Job)
    ensures Incomplete(jobs + [j]) == Incomplete(jobs) + if j.jobCompleted.None? then [j] else []
  {
    assert (jobs + [j])[..|jobs|] == jobs;
  }

  /** The incomplete list holds exactly the jobs without a completion stamp, in their order. */
  lemma {:induction false} IncompleteIsFilter(jobs: seq<Job>)
    ensures forall j :: j in Incomplete(jobs) <==> j in jobs && j.jobCompleted.None?
    ensures forall k :: 0 <= k < |Incomplete(jobs)| ==> Incomplete(jobs)[k].jobCompleted.None?
  {
    if jobs != [] {
      var front := jobs[..|jobs| - 1];
      IncompleteIsFilter(front);
      assert jobs == front + [jobs[|jobs| - 1]];
    }
  }

  /** The positions of the jobs without a completion stamp, in increasing order. */
  ghost function IncompletePositions(jobs: seq<Job>): (ps: seq<int>)
    reads jobs
    ensures forall t :: 0 <= t < |ps| ==> 0 <= ps[t] < |jobs|
  {
    if jobs == [] then []
    else
      IncompletePositions(jobs[..|jobs| - 1]) + if jobs[|jobs| - 1].jobCompleted.None? then [|jobs| - 1] else []
  }

  /** The incomplete list keeps the order of the list of all jobs: its t-th job is the job at the
      t-th position without a stamp, those positions increase, and no such position is skipped. */
  lemma {:induction false} IncompleteKeepsOrder(jobs: seq<Job>)
    ensures |Incomplete(jobs)| == |IncompletePositions(jobs)|
    ensures forall t :: 0 <= t < |Incomplete(jobs)| ==> Incomplete(jobs)[t] == jobs[IncompletePositions(jobs)[t]]
    ensures forall t, u :: 0 <= t < u < |IncompletePositions(jobs)| ==>
              IncompletePositions(jobs)[t] < IncompletePositions(jobs)[u]
    ensures forall k :: 0 <= k < |jobs| && jobs[k].jobCompleted.None? ==> k in IncompletePositions(jobs)
  {
    if jobs != [] {
      var front := jobs[..|jobs| - 1];
      IncompleteKeepsOrder(front);
      forall k | 0 <= k < |front|
        ensures front[k] == jobs[k]
      {
      }
    }
  }

  /** Adding one row adds its position to the heads exactly when it opens a job. */
  lemma HeadsStep(rows: seq<Row>, i: int)
    requires 0 <= i < |rows|
    ensures Heads(rows[..i + 1]) == Heads(rows[..i]) + if OpensJob(rows, i) then [i] else []
  {
    assert rows[..i + 1][..i] == rows[..i];
  }

  /** Each job of a list was built from the head row at the same position. */
  predicate AllBuilt(jobs: seq<Job>, rows: seq<Row>, hs: seq<int>, details: map<string, seq<OrderDetail>>)
    reads jobs
  {
    |jobs| == |hs| && forall k :: 0 <= k < |jobs| ==> 0 <= hs[k] < |rows| && BuiltFrom(jobs[k], rows[hs[k]], details)
  }

  /** A job built from row `i` extends a built list by one. */
  lemma AllBuiltSnoc(jobs: seq<Job>, rows: seq<Row>, hs: seq<int>, details: map<string, seq<OrderDetail>>,
                     bean: Job, i: int)
    requires AllBuilt(jobs, rows, hs, details)
    requires 0 <= i < |rows| && BuiltFrom(bean, rows[i], details)
    ensures AllBuilt(jobs + [bean], rows, hs + [i], details)
  {
    forall k | 0 <= k < |jobs| + 1
      ensures 0 <= (hs + [i])[k] < |rows| && BuiltFrom((jobs + [bean])[k], rows[(hs + [i])[k]], details)
    {
      if k < |jobs| {
        assert (jobs + [bean])[k] == jobs[k] && (hs + [i])[k] == hs[k];
      }
    }
  }

  /** The body of the loop for a row that opens a job: build its bean, with the line items looked
      up by its id, add it to the list of all jobs and, when it has no completion stamp, to the
      incomplete ones. */
  method AddJob(row: Row, details: map<string, seq<OrderDetail>>, jobList: seq<Job>,
                incompletedJobsList: seq<Job>, ghost rows: seq<Row>, ghost hs: seq<int>, ghost i: int)
    returns (jobList': seq<Job>, incompletedJobsList': seq<Job>)
    requires 0 <= i < |rows| && rows[i] == row
    requires AllBuilt(jobList, rows, hs, details) && incompletedJobsList == Incomplete(jobList)
    ensures AllBuilt(jobList', rows, hs + [i], details)
    ensures incompletedJobsList' == Incomplete(jobList')
  {
    var detailList := DetailsFor(details, row.jobId);
    var bean := new Job(row.shipDate, row.jobId, row.customerName, row.proofSpecDate,
                        row.jobCompleted, detailList);
    assert AllBuilt(jobList, rows, hs, details) && incompletedJobsList == Incomplete(jobList);
    AllBuiltSnoc(jobList, rows, hs, details, bean, i);
    IncompleteSnoc(jobList, bean);
    jobList' := jobList + [bean];
    incompletedJobsList' := incompletedJobsList;
    if bean.jobCompleted.None? {
      incompletedJobsList' := incompletedJobsList + [bean];
    }
  }

  /** The loop shared by getAllJobsByDate and getJobsByDate: one bean per row whose job id differs
      from the previous row's, and the incomplete ones collected alongside. */
  method GroupRows(rows: seq<Row>, details: map<string, seq<OrderDetail>>)
    returns (jobList: seq<Job>, incompletedJobsList: seq<Job>)
    ensures |jobList| == |Heads(rows)|
    ensures forall k :: 0 <= k < |jobList| ==> BuiltFrom(jobList[k], rows[Heads(rows)[k]], details)
    ensures incompletedJobsList == Incomplete(jobList)
  {
    jobList := [];
    incompletedJobsList := [];
    var lastJob := "";
    ghost var hs: seq<int> := [];
    for i := 0 to |rows|
      invariant lastJob == if i == 0 then "" else rows[i - 1].jobId
      invariant hs == Heads(rows[..i])
      invariant AllBuilt(jobList, rows, hs, details)
      invariant incompletedJobsList == Incomplete(jobList)
    {
      HeadsStep(rows, i);
      var row := rows[i];
      if row.jobId != lastJob {
        lastJob := row.jobId;
        jobList, incompletedJobsList := AddJob(row, details, jobList, incompletedJobsList, rows, hs, i);
        hs := hs + [i];
      }
    }
    assert rows[..|rows|] == rows;
  }

  /** getAllJobsByDate: two lists, all the jobs first and the incomplete ones second. */
  method GetAllJobsByDate(rows: seq<Row>, details: map<string, seq<OrderDetail>>)
    returns (jobArray: seq<seq<Job>>)
    ensures |jobArray| == 2
    ensures |jobArray[0]| == |Heads(rows)|
    ensures forall k :: 0 <= k < |jobArray[0]| ==> BuiltFrom(jobArray[0][k], rows[Heads(rows)[k]], details)
    ensures jobArray[1] == Incomplete(jobArray[0])
  {
    var jobList, incompletedJobsList := GroupRows(rows, details);
    jobArray := [jobList, incompletedJobsList];
  }

  /** getJobsByDate: all the jobs; with no job at all the read of the first job fails. */
  method GetJobsByDate(rows: seq<Row>, details: map<string, seq<OrderDetail>>)
    returns (r: Result<seq<Job>>)
    ensures r.Err? <==> Heads(rows) == []
    ensures r.Err? ==> r.error == IndexOutOfBounds
    ensures r.Ok? ==> |r.value| == |Heads(rows)|
                      && forall k :: 0 <= k < |r.value| ==> BuiltFrom(r.value[k], rows[Heads(rows)[k]], details)
  {
    var jobList, _ := GroupRows(rows, details);
    if |jobList| == 0 {
      return Err(IndexOutOfBounds);
    }
    return Ok(jobList);
  }
}
