/** The beans the scheduling logic reads and updates, cut down to the fields that logic uses,
    and the tree table's checkboxes. A `null` timestamp is `None`. */
module Beans {
  import opened Base
  import opened Calendar

  /** A java.sql.Timestamp, as milliseconds since the epoch. */
  type Timestamp = int

  /** One line item of an order. */
  class OrderDetail {
    const id: int
    const orderId: string
    var itemCompleted: Option<Timestamp>

    constructor (id: int, orderId: string, itemCompleted: Option<Timestamp>)
      ensures this.id == id && this.orderId == orderId && this.itemCompleted == itemCompleted
    {
      this.id := id;
      this.orderId := orderId;
      this.itemCompleted := itemCompleted;
    }
  }

  /** A job (an order) with its line items. */
  class Job {
    const shipDate: Day
    const jobId: string
    const customerName: string
    const proofSpecDate: Option<Timestamp>
    var jobCompleted: Option<Timestamp>
    var orderDetailList: seq<OrderDetail>

    constructor (shipDate: Day, jobId: string, customerName: string, proofSpecDate: Option<Timestamp>,
                 jobCompleted: Option<Timestamp>, orderDetailList: seq<OrderDetail>)
      ensures this.shipDate == shipDate && this.jobId == jobId && this.customerName == customerName
      ensures this.proofSpecDate == proofSpecDate && this.jobCompleted == jobCompleted
      ensures this.orderDetailList == orderDetailList
    {
      this.shipDate := shipDate;
      this.jobId := jobId;
      this.customerName := customerName;
      this.proofSpecDate := proofSpecDate;
      this.jobCompleted := jobCompleted;
      this.orderDetailList := orderDetailList;
    }
  }

  /** The tree table's item ids: a job row is added under its job id, a detail row under its detail id. */
  datatype ItemKey = JobItem(jobId: string) | DetailItem(detailId: int)

  /** The checkbox shown in each row of the production tree table. */
  class TreeTable {
    var checked: map<ItemKey, bool>

    constructor (checked: map<ItemKey, bool>)
      ensures this.checked == checked
    {
      this.checked := checked;
    }
  }

  /** Whether a timestamp is set, i.e. the item or job counts as completed. */
  predicate IsSet(t: Option<Timestamp>) {
    t.Some?
  }

  /** The stamp a checkbox change stores: the current time when checked, null when unchecked. */
  function CompletedStamp(boxChecked: bool, now: Timestamp): (stamp: Option<Timestamp>)
    ensures IsSet(stamp) == boxChecked
    ensures stamp.Some? ==> stamp.value == now
  {
    if boxChecked then Some(now) else None
  }
}
