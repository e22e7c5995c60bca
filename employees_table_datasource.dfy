/** The data source behind the employees table: the rows built from the time
    information, the column comparator, and one emission of `connect`, which
    sorts and pages a copy of the rows. */
module EmployeesTable {
  import opened JsArray
  import opened Models
  import DateUtils

  datatype EmployeesTableItem = EmployeesTableItem(
    id: string,
    name: string,
    email: string,
    totalClocked: real,
    regularPaid: real,
    overtimePaid: real)

  /** A value of a sortable column (`string | number`). */
  datatype Key = Text(text: string) | Number(number: real)

  /** JavaScript `<` on two strings: the first differing character decides,
      and a proper prefix comes first. */
  predicate StringLess(a: string, b: string)
    ensures StringLess(a, b) ==> a != b
    ensures |a| < |b| && a == b[..|a|] ==> StringLess(a, b)
    decreases |a|
  {
    if a == [] then b != []
    else if b == [] then false
    else if a[0] != b[0] then a[0] < b[0]
    else StringLess(a[1..], b[1..])
  }

  lemma {:induction false} StringLessAsymmetric(a: string, b: string)
    ensures !(StringLess(a, b) && StringLess(b, a))
    decreases |a|
  {
    if a != [] && b != [] && a[0] == b[0] {
      StringLessAsymmetric(a[1..], b[1..]);
    }
  }

  lemma {:induction false} StringLessTotal(a: string, b: string)
    ensures a == b || StringLess(a, b) || StringLess(b, a)
    decreases |a|
  {
    if a != [] && b != [] && a[0] == b[0] {
      StringLessTotal(a[1..], b[1..]);
      assert a == [a[0]] + a[1..] && b == [b[0]] + b[1..];
    }
  }

  lemma {:induction false} StringLessTransitive(a: string, b: string, c: string)
    ensures StringLess(a, b) && StringLess(b, c) ==> StringLess(a, c)
    decreases |a|
  {
    if a != [] && b != [] && c != [] && a[0] == b[0] && b[0] == c[0] {
      StringLessTransitive(a[1..], b[1..], c[1..]);
    }
  }

  /** `<` on two column values. Columns hold values of one kind, so values of
      different kinds are never compared; they are taken as not less. */
  predicate Less(a: Key, b: Key)
    ensures Less(a, b) ==> SameKind(a, b) && a != b
  {
    match (a, b)
    case (Text(x), Text(y)) => StringLess(x, y)
    case (Number(x), Number(y)) => x < y
    case _ => false
  }

  predicate SameKind(a: Key, b: Key) {
    a.Text? == b.Text?
  }

  /** "Not less" is a total preorder on values of one kind. */
  lemma NotLessTransitive(a: Key, b: Key, c: Key)
    requires SameKind(a, b) && SameKind(b, c)
    ensures !Less(b, a) && !Less(c, b) ==> !Less(c, a)
    ensures !(Less(a, b) && Less(b, a))
  {
    if a.Text? {
      StringLessTotal(a.text, b.text);
      StringLessTransitive(c.text, a.text, b.text);
      StringLessAsymmetric(a.text, b.text);
    }
  }

  /** `compare(a, b, isAsc)`: -1 or 1, never 0, even for equal values; the
      sign says whether `a < b`, flipped for a descending sort. */
  function Compare(a: Key, b: Key, isAsc: bool): (r: int)
    ensures r == 1 || r == -1
    ensures isAsc ==> (r == -1 <==> Less(a, b))
    ensures !isAsc ==> (r == 1 <==> Less(a, b))
  {
    (if Less(a, b) then -1 else 1) * (if isAsc then 1 else -1)
  }

  /** A descending comparison is the negated ascending one, and a value
      compared with itself gives 1 ascending and -1 descending. */
  lemma CompareDirections(a: Key, b: Key)
    ensures Compare(a, b, false) == -Compare(a, b, true)
    ensures Compare(a, a, true) == 1 && Compare(a, a, false) == -1
  {
    if a.Text? {
      StringLessAsymmetric(a.text, a.text);
    }
  }

  /** The state of the table's `MatSort`. */
  datatype Sort = Sort(active: string, direction: string)

  /** The state of the table's `MatPaginator`. */
  datatype Paginator = Paginator(pageIndex: nat, pageSize: nat)

  predicate IsColumn(active: string) {
    active in {"name", "email", "totalClocked", "regularPaid", "overtimePaid"}
  }

  /** The value a recognised column shows for `item`. */
  function ColumnKey(active: string, item: EmployeesTableItem): (k: Key)
    requires IsColumn(active)
    ensures k.Text? <==> active == "name" || active == "email"
  {
    if active == "name" then Text(item.name)
    else if active == "email" then Text(item.email)
    else if active == "totalClocked" then Number(item.totalClocked)
    else if active == "regularPaid" then Number(item.regularPaid)
    else Number(item.overtimePaid)
  }

  /** The comparator handed to `data.sort`: the `switch` over the active column. */
  function SortComparator(active: string, isAsc: bool): (cmp: (EmployeesTableItem, EmployeesTableItem) -> int)
    ensures forall a, b :: cmp(a, b) == if IsColumn(active) then Compare(ColumnKey(active, a), ColumnKey(active, b), isAsc) else 0
  {
    (a: EmployeesTableItem, b: EmployeesTableItem) =>
      if active == "name" then Compare(Text(a.name), Text(b.name), isAsc)
      else if active == "email" then Compare(Text(a.email), Text(b.email), isAsc)
      else if active == "totalClocked" then Compare(Number(a.totalClocked), Number(b.totalClocked), isAsc)
      else if active == "regularPaid" then Compare(Number(a.regularPaid), Number(b.regularPaid), isAsc)
      else if active == "overtimePaid" then Compare(Number(a.overtimePaid), Number(b.overtimePaid), isAsc)
      else 0
  }

  /** No sort, no active column, or an empty direction. */
  predicate Unsorted(sort: Option<Sort>) {
    sort.None? || sort.value.active == "" || sort.value.direction == ""
  }

  /** What getSortedData returns for `data`. */
  function SortedData(data: seq<EmployeesTableItem>, sort: Option<Sort>): (r: seq<EmployeesTableItem>)
    ensures |r| == |data|
  {
    if Unsorted(sort) then data
    else SortWith(data, SortComparator(sort.value.active, sort.value.direction == "asc"))
  }

  /** `x` may precede `y` when sorting by the recognised column `active`. */
  function InColumnOrder(active: string, isAsc: bool): (EmployeesTableItem, EmployeesTableItem) -> bool
    requires IsColumn(active)
  {
    (x: EmployeesTableItem, y: EmployeesTableItem) =>
      if isAsc then !Less(ColumnKey(active, y), ColumnKey(active, x))
      else !Less(ColumnKey(active, x), ColumnKey(active, y))
  }

  /** getSortedData rearranges the rows: it leaves them as they are when
      unsorted or when the column is not recognised (the comparator is then 0
      and the sort is stable), and otherwise orders them by the column's
      values, ascending or descending. */
  lemma SortedDataSpec(data: seq<EmployeesTableItem>, sort: Option<Sort>)
    ensures multiset(SortedData(data, sort)) == multiset(data)
    ensures Unsorted(sort) ==> SortedData(data, sort) == data
    ensures !Unsorted(sort) && !IsColumn(sort.value.active) ==> SortedData(data, sort) == data
    ensures !Unsorted(sort) && IsColumn(sort.value.active) ==>
      SortedBy(SortedData(data, sort), InColumnOrder(sort.value.active, sort.value.direction == "asc"))
  {
    if !Unsorted(sort) {
      var active, isAsc := sort.value.active, sort.value.direction == "asc";
      var cmp := SortComparator(active, isAsc);
      SortWithPermutation(data, cmp);
      if IsColumn(active) {
        var before := InColumnOrder(active, isAsc);
        forall a, b, c ensures before(a, b) && before(b, c) ==> before(a, c) {
          if isAsc {
            NotLessTransitive(ColumnKey(active, a), ColumnKey(active, b), ColumnKey(active, c));
          } else {
            NotLessTransitive(ColumnKey(active, c), ColumnKey(active, b), ColumnKey(active, a));
          }
        }
        forall a, b
          ensures cmp(a, b) < 0 ==> before(a, b)
          ensures cmp(a, b) >= 0 ==> before(b, a)
        {
          var ka, kb := ColumnKey(active, a), ColumnKey(active, b);
          assert cmp(a, b) == Compare(ka, kb, isAsc);
          NotLessTransitive(ka, kb, kb);
        }
        SortWithSorted(data, cmp, before);
      } else {
        SortWithKeepsOrder(data, cmp);
      }
    }
  }

  /** The rows whose value in the column `active` is `k`. */
  function ColumnIs(active: string, k: Key): EmployeesTableItem -> bool
    requires IsColumn(active)
  {
    (item: EmployeesTableItem) => ColumnKey(active, item) == k
  }

  /** Sorting ascending keeps rows with equal values in their input order:
      `compare` gives 1 for them, so none is moved past another. */
  lemma AscendingKeepsEqualRowsInOrder(data: seq<EmployeesTableItem>, active: string, k: Key)
    requires IsColumn(active)
    ensures Filter(SortedData(data, Some(Sort(active, "asc"))), ColumnIs(active, k))
         == Filter(data, ColumnIs(active, k))
  {
    var cmp := SortComparator(active, true);
    forall a, b | ColumnIs(active, k)(a) && ColumnIs(active, k)(b) ensures cmp(a, b) >= 0 {
      CompareDirections(k, k);
    }
    SortWithStable(data, cmp, ColumnIs(active, k));
  }

  /** Two rows with equal values: ascending keeps them as they are, while
      descending swaps them, since `compare` then gives -1 for equal values. */
  lemma EqualRowsByDirection(x: EmployeesTableItem, y: EmployeesTableItem)
    requires x.totalClocked == y.totalClocked
    ensures SortedData([x, y], Some(Sort("totalClocked", "asc"))) == [x, y]
    ensures SortedData([x, y], Some(Sort("totalClocked", "desc"))) == [y, x]
  {
    CompareDirections(Number(x.totalClocked), Number(x.totalClocked));
    assert [x, y][..1] == [x];
    assert SortWith([x], SortComparator("totalClocked", true)) == [x];
    assert SortWith([x], SortComparator("totalClocked", false)) == [x];
    assert IsColumn("totalClocked");
    assert SortComparator("totalClocked", false)(y, x) == -1;
    assert [x][..0] == [];
    assert Insert(y, [x], SortComparator("totalClocked", false)) == [y, x];
  }

  /** What getPagedData returns for `data`: the contiguous run of at most
      `pageSize` rows starting at `pageIndex * pageSize`, in their order,
      empty past the end; without a paginator the rows as they are. */
  function PagedData(data: seq<EmployeesTableItem>, paginator: Option<Paginator>): (r: seq<EmployeesTableItem>)
    ensures paginator.None? ==> r == data
    ensures paginator.Some? ==>
      var start := paginator.value.pageIndex * paginator.value.pageSize;
      && |r| == (if start >= |data| then 0 else Min(paginator.value.pageSize, |data| - start))
      && forall k :: 0 <= k < |r| ==> r[k] == data[start + k]
  {
    if paginator.None? then data
    else SpliceRemoved(data, paginator.value.pageIndex * paginator.value.pageSize, paginator.value.pageSize)
  }

  /** The row getData builds from one employee's time information. */
  function TableItem(info: EmployeeTimeInfo): (item: EmployeesTableItem)
    ensures item.id == info.employee.id && item.name == info.employee.name && item.email == info.employee.email
    ensures item.totalClocked * 3600000.0 == info.regularMs + info.overtimeMs
    ensures item.regularPaid * 3600000.0 == info.regularMs * info.employee.hourlyRate
    ensures item.overtimePaid * 3600000.0 == info.overtimeMs * info.employee.hourlyRateOvertime
  {
    EmployeesTableItem(
      info.employee.id,
      info.employee.name,
      info.employee.email,
      DateUtils.MsToHours(info.regularMs + info.overtimeMs),
      DateUtils.MsToHours(info.regularMs) * info.employee.hourlyRate,
      DateUtils.MsToHours(info.overtimeMs) * info.employee.hourlyRateOvertime)
  }

  const NotConnectable := "Please set the paginator and sort on the data source before connecting."

  datatype Result<T> = Success(value: T) | Failure(error: string)

  class EmployeesTableDataSource {
    var data: seq<EmployeesTableItem>
    var paginator: Option<Paginator>
    var sort: Option<Sort>

    constructor ()
      ensures data == [] && paginator.None? && sort.None?
    {
      data := [];
      paginator := None;
      sort := None;
    }

    /** The `tap` in getData: the rows of the latest time information. */
    method ReceiveHoursInfo(infos: seq<EmployeeTimeInfo>)
      modifies this`data
      ensures |data| == |infos|
      ensures forall i :: 0 <= i < |data| ==> data[i] == TableItem(infos[i])
    {
      data := seq(|infos|, i requires 0 <= i < |infos| => TableItem(infos[i]));
    }

    /** getSortedData on the array it is given, sorted in place. */
    method GetSortedData(a: array<EmployeesTableItem>)
      modifies a
      ensures a[..] == SortedData(old(a[..]), sort)
    {
      if Unsorted(sort) {
        return;
      }
      SortInPlace(a, SortComparator(sort.value.active, sort.value.direction == "asc"));
    }

    /** getPagedData: the rows `splice` removes from the array, or all of them
        without a paginator. */
    method GetPagedData(a: array<EmployeesTableItem>) returns (page: seq<EmployeesTableItem>)
      ensures paginator.None? ==> page == a[..]
      ensures paginator.Some? ==>
        var start := paginator.value.pageIndex * paginator.value.pageSize;
        && |page| == (if start >= a.Length then 0 else Min(paginator.value.pageSize, a.Length - start))
        && forall k :: 0 <= k < |page| ==> page[k] == a[start + k]
    {
      if paginator.Some? {
        var startIndex := paginator.value.pageIndex * paginator.value.pageSize;
        page := SpliceRemoved(a[..], startIndex, paginator.value.pageSize);
      } else {
        page := a[..];
      }
    }

    /** One emission of the stream `connect` returns: the current rows,
        copied, sorted and paged. Without a paginator or a sort, `connect`
        throws. The rows themselves are left as they were. */
    method Connect() returns (r: Result<seq<EmployeesTableItem>>)
      ensures r.Failure? <==> paginator.None? || sort.None?
      ensures r.Failure? ==> r.error == NotConnectable
      ensures r.Success? ==> r.value == PagedData(SortedData(data, sort), paginator)
    {
      if paginator.Some? && sort.Some? {
        var rows := data;
        var copy := new EmployeesTableItem[|rows|](i requires 0 <= i < |rows| => rows[i]);
        assert copy[..] == rows;
        GetSortedData(copy);
        var page := GetPagedData(copy);
        assert page == PagedData(copy[..], paginator);
        r := Success(page);
      } else {
        r := Failure(NotConnectable);
      }
    }
  }
}
