/** OrderDetailManager.orderDetailCheckboxChanged: ticking or clearing one line item stamps
    that item, then one scan over the job's items decides the job's own checkbox. */
module OrderDetailManager {
  import opened Base
  import opened Beans

  /** The completion of each item, in list order. */
  function Completions(items: seq<OrderDetail>): (cs: seq<bool>)
    reads items
    ensures |cs| == |items|
    ensures forall k :: 0 <= k < |items| ==> cs[k] == IsSet(items[k].itemCompleted)
  {
    seq(|items|, k requires 0 <= k < |items| reads items => IsSet(items[k].itemCompleted))
  }

  // The three verdicts of the scan, over the completions of the siblings and the new box state.

  /** Some sibling's completion differs from the new state. */
  predicate Mixed(cs: seq<bool>, boxChecked: bool) {
    exists k :: 0 <= k < |cs| && cs[k] != boxChecked
  }

  /** The box was checked and every sibling is complete. */
  predicate AllChecked(cs: seq<bool>, boxChecked: bool) {
    boxChecked && forall k :: 0 <= k < |cs| ==> cs[k]
  }

  /** The box was cleared and no sibling is complete. */
  predicate NoneChecked(cs: seq<bool>, boxChecked: bool) {
    !boxChecked && forall k :: 0 <= k < |cs| ==> !cs[k]
  }

  /** The scan over the siblings. It only reads them; each flag is false once it has been falsified. */
  method ScanSiblings(siblings: seq<OrderDetail>, boxChecked: bool)
    returns (mixed: bool, allChecked: bool, noneChecked: bool)
    ensures mixed == Mixed(Completions(siblings), boxChecked)
    ensures allChecked == AllChecked(Completions(siblings), boxChecked)
    ensures noneChecked == NoneChecked(Completions(siblings), boxChecked)
  {
    ghost var cs := Completions(siblings);
    mixed := false;
    allChecked := boxChecked;
    noneChecked := !boxChecked;
    for i := 0 to |siblings|
      invariant mixed == Mixed(cs[..i], boxChecked)
      invariant allChecked == AllChecked(cs[..i], boxChecked)
      invariant noneChecked == NoneChecked(cs[..i], boxChecked)
    {
      var od := siblings[i];
      assert cs[..i + 1] == cs[..i] + [IsSet(od.itemCompleted)];
      if IsSet(od.itemCompleted) != boxChecked {
        mixed := true;
      }
      if !allChecked || !IsSet(od.itemCompleted) {
        allChecked := false;
      }
      if !noneChecked || IsSet(od.itemCompleted) {
        noneChecked := false;
      }
    }
    assert cs[..|siblings|] == cs;
  }

  /** Whatever the siblings, exactly one of the three verdicts holds. */
  lemma {:induction false} ExactlyOneVerdict(cs: seq<bool>, boxChecked: bool)
    ensures Mixed(cs, boxChecked) ==> !AllChecked(cs, boxChecked) && !NoneChecked(cs, boxChecked)
    ensures !Mixed(cs, boxChecked) ==> AllChecked(cs, boxChecked) != NoneChecked(cs, boxChecked)
  {
    if Mixed(cs, boxChecked) {
      var k :| 0 <= k < |cs| && cs[k] != boxChecked;
      assert boxChecked ==> !cs[k];
    } else {
      assert forall k :: 0 <= k < |cs| ==> cs[k] == boxChecked;
    }
  }

  /** The parent checkbox follows `allChecked` alone, so a cleared box always leaves the job
      unchecked, and `noneChecked` never changes the outcome. */
  lemma ParentFollowsAllChecked(cs: seq<bool>, boxChecked: bool)
    ensures !boxChecked ==> !AllChecked(cs, boxChecked)
    ensures NoneChecked(cs, boxChecked) ==> !AllChecked(cs, boxChecked)
    ensures AllChecked(cs, boxChecked) <==> boxChecked && !Mixed(cs, boxChecked)
  {
  }

  /** orderDetailCheckboxChanged: store the stamp on the toggled item, scan the job's items
      (which see the new stamp when the toggled item is among them) and set the job's checkbox
      to `allChecked`. The tree table must hold a row for the item's order, as the source
      dereferences it. */
  method OrderDetailCheckboxChanged(boxChecked: bool, now: Timestamp, orderDetail: OrderDetail,
                                    treeTable: TreeTable, job: Job)
    requires JobItem(orderDetail.orderId) in treeTable.checked
    modifies orderDetail, treeTable
    ensures orderDetail.itemCompleted == CompletedStamp(boxChecked, now)
    ensures forall od :: od in job.orderDetailList && od != orderDetail ==> od.itemCompleted == old(od.itemCompleted)
    ensures treeTable.checked == old(treeTable.checked)[JobItem(orderDetail.orderId) :=
              boxChecked && forall od :: od in job.orderDetailList ==> IsSet(od.itemCompleted)]
    ensures orderDetail in job.orderDetailList ==>
              (treeTable.checked[JobItem(orderDetail.orderId)] <==>
               boxChecked && forall od :: od in job.orderDetailList && od != orderDetail ==> IsSet(od.itemCompleted))
  {
    var completedStamp := CompletedStamp(boxChecked, now);
    orderDetail.itemCompleted := completedStamp;

    var siblings := job.orderDetailList;
    var mixed, allChecked, noneChecked := ScanSiblings(siblings, boxChecked);
    ghost var cs := Completions(siblings);
    assert allChecked <==> boxChecked && forall od :: od in siblings ==> IsSet(od.itemCompleted) by {
      if boxChecked && !allChecked {
        var k :| 0 <= k < |cs| && !cs[k];
        assert siblings[k] in siblings;
      }
    }
    if allChecked {
      treeTable.checked := treeTable.checked[JobItem(orderDetail.orderId) := true];
    } else {
      treeTable.checked := treeTable.checked[JobItem(orderDetail.orderId) := false];
    }
  }
}
