/**
 * The member download of `pull_all_users_from_APIs`: pages 1, 2, 3, ... are
 * requested in turn, each page's records are projected to the four kept
 * columns and appended, and the scan ends at the first page whose `records`
 * list is empty. The HTTP endpoint is an oracle from page number to response.
 */
module Fetch {
  import opened Wrappers
  import opened Calendar
  import opened Frames

  /** A JSON field of an upstream record: key missing, explicit null, or a value. */
  datatype Field<T> = Absent | Null | Present(value: T)

  /**
   * One upstream member record. Timestamps arrive already parsed (or null);
   * every other upstream field (community id, post counts, ...) is `others`.
   */
  datatype ApiRecord = ApiRecord(
    name: Field<string>,
    email: Field<string>,
    createdAt: Field<Instant>,
    lastSeenAt: Field<Instant>,
    others: map<string, string>)

  /** The server's answer to one page request. */
  datatype PageResponse =
    | Records(records: seq<ApiRecord>)  // a body with a `records` list (a null list reads as [])
    | Unreadable                        // request error, non-JSON body or no `records` key

  type PageOracle = nat -> PageResponse

  datatype FetchError =
    | RequestFailed(page: nat)   // reading `records` raised
    | MissingColumns(page: nat)  // a kept column is absent from every record of the page: KeyError

  /** The four columns kept by the projection. */
  datatype Column = NameColumn | EmailColumn | CreatedAtColumn | LastSeenAtColumn

  predicate HasKey(r: ApiRecord, c: Column)
  {
    match c
    case NameColumn => !r.name.Absent?
    case EmailColumn => !r.email.Absent?
    case CreatedAtColumn => !r.createdAt.Absent?
    case LastSeenAtColumn => !r.lastSeenAt.Absent?
  }

  /** `json_normalize` creates column `c` iff some record of the page has the key. */
  predicate PageHasColumn(records: seq<ApiRecord>, c: Column)
  {
    exists i :: 0 <= i < |records| && HasKey(records[i], c)
  }

  predicate PageHasAllColumns(records: seq<ApiRecord>)
  {
    && PageHasColumn(records, NameColumn)
    && PageHasColumn(records, EmailColumn)
    && PageHasColumn(records, CreatedAtColumn)
    && PageHasColumn(records, LastSeenAtColumn)
  }

  function Cell<T>(f: Field<T>): Option<T>
  {
    match f
    case Present(v) => Some(v)
    case _ => None
  }

  /** A record projected to the kept columns; missing keys and nulls become null cells. */
  function Project(r: ApiRecord): Member
  {
    Member(Cell(r.name), Cell(r.email), Cell(r.createdAt), Cell(r.lastSeenAt))
  }

  /** Cell `c` holds field `f`: null exactly when the key is missing or null, else the value. */
  predicate HoldsField<T(==)>(f: Field<T>, c: Option<T>)
  {
    && (c.None? <==> !f.Present?)
    && (f.Present? ==> c == Some(f.value))
  }

  /** Member `m` carries the four kept columns of record `r`. */
  predicate KeepsColumns(r: ApiRecord, m: Member)
  {
    && HoldsField(r.name, m.name)
    && HoldsField(r.email, m.email)
    && HoldsField(r.createdAt, m.createdAt)
    && HoldsField(r.lastSeenAt, m.lastSeenAt)
  }

  /**
   * The kept columns of every record, in page order: a cell is null exactly
   * when its key is missing or null, and otherwise holds the record's value.
   */
  function ProjectAll(records: seq<ApiRecord>): (ms: seq<Member>)
    ensures |ms| == |records|
    ensures forall i :: 0 <= i < |records| ==> ms[i] == Project(records[i])
    ensures forall i :: 0 <= i < |records| ==> KeepsColumns(records[i], ms[i])
  {
    seq(|records|, i requires 0 <= i < |records| => Project(records[i]))
  }

  /** What one turn of the download loop does with the response for `page`. */
  datatype Step = Stop | Append(rows: seq<Member>) | Raise(error: FetchError)

  function PageStep(page: nat, response: PageResponse): (s: Step)
    ensures s.Stop? <==> response == Records([])
    ensures s.Append? ==> response.Records? && |s.rows| == |response.records| > 0
    ensures s.Append? ==> s.rows == ProjectAll(response.records)
    ensures s.Raise? <==>
      (response.Unreadable? || (response.records != [] && !PageHasAllColumns(response.records)))
    ensures response.Unreadable? ==> s == Raise(RequestFailed(page))
    ensures s.Raise? && response.Records? ==> s == Raise(MissingColumns(page))
  {
    match response
    case Unreadable => Raise(RequestFailed(page))
    case Records(records) =>
      if records == [] then Stop
      else if !PageHasAllColumns(records) then Raise(MissingColumns(page))
      else Append(ProjectAll(records))
  }

  /** Page `page` ends the scan: its record list is empty, or reading it raises. */
  predicate Ends(oracle: PageOracle, page: nat)
  {
    !PageStep(page, oracle(page)).Append?
  }

  /** The first page at or after `page` that ends the scan; `bound` is one such page. */
  function FirstEnd(oracle: PageOracle, page: nat, bound: nat): (k: nat)
    requires page <= bound && Ends(oracle, bound)
    ensures page <= k <= bound && Ends(oracle, k)
    ensures forall j :: page <= j < k ==> !Ends(oracle, j)
    decreases bound - page
  {
    if Ends(oracle, page) then page else FirstEnd(oracle, page + 1, bound)
  }

  /** The rows of pages `lo`, ..., `hi - 1`, in page order, none of which ends the scan. */
  function RowsBetween(oracle: PageOracle, lo: nat, hi: nat): (ms: seq<Member>)
    requires lo <= hi
    requires forall j :: lo <= j < hi ==> !Ends(oracle, j)
    decreases hi - lo
  {
    if lo == hi then []
    else
      assert !Ends(oracle, hi - 1);
      RowsBetween(oracle, lo, hi - 1) + PageStep(hi - 1, oracle(hi - 1)).rows
  }

  /**
   * The download as a whole: the in-order concatenation of the pages before
   * the first empty page, indexed 0..N-1, or the error of the page that raised.
   */
  function Download(oracle: PageOracle, bound: nat): Result<Frame, FetchError>
    requires 1 <= bound && Ends(oracle, bound)
  {
    var k := FirstEnd(oracle, 1, bound);
    var last := PageStep(k, oracle(k));
    if last.Raise? then Failure(last.error) else Success(Label(RowsBetween(oracle, 1, k)))
  }

  /** Page numbers `1, ..., n`. */
  function PagesUpTo(n: nat): (ps: seq<nat>)
    ensures |ps| == n
    ensures forall i :: 0 <= i < n ==> ps[i] == i + 1
  {
    if n == 0 then [] else PagesUpTo(n - 1) + [n]
  }

  /**
   * The download loop. `bound` is a page known to end the scan; the loop runs
   * forever against a server none of whose pages is empty or raises, which the
   * model excludes. `requested` logs the page numbers asked for, in order.
   */
  method PullAllUsers(oracle: PageOracle, ghost bound: nat)
    returns (r: Result<Frame, FetchError>, requested: seq<nat>)
    requires 1 <= bound && Ends(oracle, bound)
    ensures requested == PagesUpTo(FirstEnd(oracle, 1, bound))
    ensures r == Download(oracle, bound)
    ensures r.Success? <==> oracle(FirstEnd(oracle, 1, bound)) == Records([])
    ensures r.Success? ==> IndexIncreasing(r.value)
    ensures r.Success? ==> forall i :: 0 <= i < |r.value| ==> r.value[i].index == i
  {
    var rows: seq<Member> := [];
    var page: nat := 1;
    requested := [];
    while true
      invariant 1 <= page <= bound
      invariant forall j :: 1 <= j < page ==> !Ends(oracle, j)
      invariant rows == RowsBetween(oracle, 1, page)
      invariant requested == PagesUpTo(page - 1)
      decreases bound - page
    {
      var response := oracle(page);
      requested := requested + [page];
      match PageStep(page, response)
      case Stop =>
        assert Ends(oracle, page);
        assert FirstEnd(oracle, 1, bound) == page;
        r := Success(Label(rows));
        LabelIsIncreasing(rows);
        return;
      case Raise(e) =>
        assert Ends(oracle, page);
        assert FirstEnd(oracle, 1, bound) == page;
        r := Failure(e);
        return;
      case Append(ms) =>
        rows := rows + ms;
        page := page + 1;
    }
  }

  /** The first ending page depends only on the pages up to it. */
  lemma {:induction false} FirstEndLocal(o1: PageOracle, o2: PageOracle, page: nat, bound: nat)
    requires page <= bound && Ends(o1, bound)
    requires forall j :: page <= j <= FirstEnd(o1, page, bound) ==> o1(j) == o2(j)
    ensures Ends(o2, FirstEnd(o1, page, bound))
    ensures FirstEnd(o2, page, FirstEnd(o1, page, bound)) == FirstEnd(o1, page, bound)
    decreases bound - page
  {
    var k := FirstEnd(o1, page, bound);
    if page < k {
      FirstEndLocal(o1, o2, page + 1, bound);
    }
  }

  lemma {:induction false} RowsBetweenLocal(o1: PageOracle, o2: PageOracle, lo: nat, hi: nat)
    requires lo <= hi
    requires forall j :: lo <= j < hi ==> !Ends(o1, j)
    requires forall j :: lo <= j < hi ==> o1(j) == o2(j)
    ensures forall j :: lo <= j < hi ==> !Ends(o2, j)
    ensures RowsBetween(o1, lo, hi) == RowsBetween(o2, lo, hi)
    decreases hi - lo
  {
    EndsAgree(o1, o2, lo, hi);
    if lo < hi {
      RowsBetweenLocal(o1, o2, lo, hi - 1);
      LastPageAgrees(o1, o2, lo, hi);
    }
  }

  /** Ranges that agree before their last page, and on it, agree. */
  lemma LastPageAgrees(o1: PageOracle, o2: PageOracle, lo: nat, hi: nat)
    requires lo < hi
    requires forall j :: lo <= j < hi ==> !Ends(o1, j) && !Ends(o2, j)
    requires o1(hi - 1) == o2(hi - 1)
    requires RowsBetween(o1, lo, hi - 1) == RowsBetween(o2, lo, hi - 1)
    ensures RowsBetween(o1, lo, hi) == RowsBetween(o2, lo, hi)
  {
    RowsBetweenLast(o1, lo, hi);
    RowsBetweenLast(o2, lo, hi);
    var last := PageStep(hi - 1, o1(hi - 1));
    calc {
      RowsBetween(o1, lo, hi);
      RowsBetween(o1, lo, hi - 1) + last.rows;
      RowsBetween(o2, lo, hi - 1) + last.rows;
      RowsBetween(o2, lo, hi);
    }
  }

  /** Pages on which two servers agree end the scan for both or for neither. */
  lemma EndsAgree(o1: PageOracle, o2: PageOracle, lo: nat, hi: nat)
    requires forall j :: lo <= j < hi ==> !Ends(o1, j)
    requires forall j :: lo <= j < hi ==> o1(j) == o2(j)
    ensures forall j :: lo <= j < hi ==> !Ends(o2, j)
  {
    forall j | lo <= j < hi
      ensures !Ends(o2, j)
    {
      assert !Ends(o1, j) && o1(j) == o2(j);
    }
  }

  /** The last page of a non-empty range contributes the tail of its rows. */
  lemma RowsBetweenLast(oracle: PageOracle, lo: nat, hi: nat)
    requires lo < hi
    requires forall j :: lo <= j < hi ==> !Ends(oracle, j)
    ensures !Ends(oracle, hi - 1)
    ensures RowsBetween(oracle, lo, hi) == RowsBetween(oracle, lo, hi - 1) + PageStep(hi - 1, oracle(hi - 1)).rows
  {
  }

  /**
   * No page after the first empty one is consulted: two servers that agree
   * on pages 1 up to it produce the same download.
   */
  lemma DownloadIgnoresLaterPages(o1: PageOracle, o2: PageOracle, bound: nat)
    requires 1 <= bound && Ends(o1, bound)
    requires forall j :: 1 <= j <= FirstEnd(o1, 1, bound) ==> o1(j) == o2(j)
    ensures Ends(o2, FirstEnd(o1, 1, bound))
    ensures Download(o2, FirstEnd(o1, 1, bound)) == Download(o1, bound)
  {
    var k := FirstEnd(o1, 1, bound);
    FirstEndLocal(o1, o2, 1, bound);
    RowsBetweenLocal(o1, o2, 1, k);
  }

  /** One more page appended at the end of the range. */
  lemma RowsBetweenExtend(oracle: PageOracle, lo: nat, hi: nat, rows: seq<Member>)
    requires lo <= hi
    requires forall j :: lo <= j < hi ==> !Ends(oracle, j)
    requires PageStep(hi, oracle(hi)) == Append(rows)
    ensures forall j :: lo <= j < hi + 1 ==> !Ends(oracle, j)
    ensures RowsBetween(oracle, lo, hi + 1) == RowsBetween(oracle, lo, hi) + rows
  {
  }

  /** A non-empty page carrying every kept column is projected and appended. */
  lemma FullPageAppends(page: nat, records: seq<ApiRecord>)
    requires records != [] && PageHasAllColumns(records)
    ensures PageStep(page, Records(records)) == Append(ProjectAll(records))
  {
  }

  /** Three pages of records followed by an empty fourth page, as the server sends them. */
  predicate ThreePagesServer(oracle: PageOracle, p1: seq<ApiRecord>, p2: seq<ApiRecord>, p3: seq<ApiRecord>)
  {
    && oracle(1) == Records(p1) && p1 != [] && PageHasAllColumns(p1)
    && oracle(2) == Records(p2) && p2 != [] && PageHasAllColumns(p2)
    && oracle(3) == Records(p3) && p3 != [] && PageHasAllColumns(p3)
    && oracle(4) == Records([])
  }

  lemma ThreePagesEnd(oracle: PageOracle, p1: seq<ApiRecord>, p2: seq<ApiRecord>, p3: seq<ApiRecord>)
    requires ThreePagesServer(oracle, p1, p2, p3)
    ensures Ends(oracle, 4)
    ensures FirstEnd(oracle, 1, 4) == 4
    ensures PagesUpTo(4) == [1, 2, 3, 4]
  {
    FullPageAppends(1, p1);
    FullPageAppends(2, p2);
    FullPageAppends(3, p3);
    assert FirstEnd(oracle, 3, 4) == 4;
    assert FirstEnd(oracle, 2, 4) == 4;
    assert PagesUpTo(2) == [1, 2] by { assert PagesUpTo(1) == [1]; }
    assert PagesUpTo(3) == [1, 2, 3];
  }

  lemma ThreePagesRows(oracle: PageOracle, p1: seq<ApiRecord>, p2: seq<ApiRecord>, p3: seq<ApiRecord>)
    requires ThreePagesServer(oracle, p1, p2, p3)
    ensures forall j :: 1 <= j < 4 ==> !Ends(oracle, j)
    ensures RowsBetween(oracle, 1, 4) == ProjectAll(p1) + ProjectAll(p2) + ProjectAll(p3)
  {
    FullPageAppends(1, p1);
    FullPageAppends(2, p2);
    FullPageAppends(3, p3);
    assert RowsBetween(oracle, 1, 1) == [];
    RowsBetweenExtend(oracle, 1, 1, ProjectAll(p1));
    assert RowsBetween(oracle, 1, 2) == ProjectAll(p1);
    RowsBetweenExtend(oracle, 1, 2, ProjectAll(p2));
    RowsBetweenExtend(oracle, 1, 3, ProjectAll(p3));
  }

  /**
   * Three full pages followed by an empty fourth: pages 1 to 4 are requested,
   * and the download is the three pages' rows in order, indexed from 0.
   */
  lemma ThreePagesThenEmpty(oracle: PageOracle, p1: seq<ApiRecord>, p2: seq<ApiRecord>, p3: seq<ApiRecord>)
    requires ThreePagesServer(oracle, p1, p2, p3)
    ensures Ends(oracle, 4)
    ensures PagesUpTo(FirstEnd(oracle, 1, 4)) == [1, 2, 3, 4]
    ensures Download(oracle, 4) == Success(Label(ProjectAll(p1) + ProjectAll(p2) + ProjectAll(p3)))
  {
    ThreePagesEnd(oracle, p1, p2, p3);
    ThreePagesRows(oracle, p1, p2, p3);
  }
}
