/** A database table with an auto-incremented integer primary key, as the
    repositories see it: rows keyed by id, and the next id the sequence will hand out. */
module Table {
  import opened Wrappers

  datatype Table<T> = Table(rows: map<int, T>, nextId: int)

  /** Serial ids start at 1 and every stored id was handed out before. */
  ghost predicate Valid<T>(t: Table<T>) {
    1 <= t.nextId && forall k :: k in t.rows ==> 1 <= k < t.nextId
  }

  function Empty<T>(): (t: Table<T>)
    ensures Valid(t) && t.rows == map[]
  {
    Table(map[], 1)
  }

  /** Stores `v` under the next serial id; earlier rows are untouched. */
  function Add<T>(t: Table<T>, v: T): (r: Table<T>)
    requires Valid(t)
    ensures Valid(r)
    ensures t.nextId !in t.rows
    ensures r.rows == t.rows[t.nextId := v] && r.nextId > t.nextId
  {
    Table(t.rows[t.nextId := v], t.nextId + 1)
  }

  /** Overwrites the row stored under an existing id. */
  function Put<T>(t: Table<T>, id: int, v: T): (r: Table<T>)
    requires Valid(t) && id in t.rows
    ensures Valid(r) && r.nextId == t.nextId
    ensures r.rows.Keys == t.rows.Keys && r.rows[id] == v
    ensures forall k :: k in t.rows && k != id ==> r.rows[k] == t.rows[k]
  {
    Table(t.rows[id := v], t.nextId)
  }

  /** Deletes the row under `id`, if any; ids are never reused. */
  function Delete<T>(t: Table<T>, id: int): (r: Table<T>)
    requires Valid(t)
    ensures Valid(r) && r.nextId == t.nextId
    ensures r.rows.Keys == t.rows.Keys - {id}
    ensures forall k :: k in r.rows ==> r.rows[k] == t.rows[k]
  {
    Table(t.rows - {id}, t.nextId)
  }

  /** First id in [lo, hi) whose row satisfies `p`. */
  function ScanFrom<T>(rows: map<int, T>, p: T -> bool, lo: int, hi: int): (r: Option<int>)
    ensures r.Some? ==> lo <= r.value < hi && r.value in rows && p(rows[r.value])
    ensures r.Some? ==> forall k :: k in rows && lo <= k < r.value ==> !p(rows[k])
    ensures r.None? ==> forall k :: k in rows && lo <= k < hi ==> !p(rows[k])
    decreases hi - lo
  {
    if lo >= hi then None
    else if lo in rows && p(rows[lo]) then Some(lo)
    else ScanFrom(rows, p, lo + 1, hi)
  }

  /** A `findOne({ where })` on a non-key column: the matching row with the least id. */
  function FirstWhere<T>(t: Table<T>, p: T -> bool): (r: Option<int>)
    requires Valid(t)
    ensures r.Some? ==> r.value in t.rows && p(t.rows[r.value])
    ensures r.Some? ==> forall k :: k in t.rows && k < r.value ==> !p(t.rows[k])
    ensures r.None? <==> forall k :: k in t.rows ==> !p(t.rows[k])
  {
    ScanFrom(t.rows, p, 1, t.nextId)
  }

  /** Ids in [lo, hi) present in `rows`, ascending. */
  function IdsFrom<T>(rows: map<int, T>, lo: int, hi: int): (ids: seq<int>)
    ensures forall k :: k in ids <==> k in rows && lo <= k < hi
    ensures forall i :: 0 <= i < |ids| ==> lo <= ids[i] < hi
    ensures forall i, j :: 0 <= i < j < |ids| ==> ids[i] < ids[j]
    decreases hi - lo
  {
    if lo >= hi then []
    else
      var rest := IdsFrom(rows, lo + 1, hi);
      if lo in rows then [lo] + rest else rest
  }

  /** Every stored id in ascending order: the order of a plain `find()`. */
  function Ids<T>(t: Table<T>): (ids: seq<int>)
    requires Valid(t)
    ensures forall k :: k in ids <==> k in t.rows
    ensures forall i, j :: 0 <= i < j < |ids| ==> ids[i] < ids[j]
  {
    IdsFrom(t.rows, 1, t.nextId)
  }

  /** Every stored row, in ascending id order. */
  function Rows<T>(t: Table<T>): (rs: seq<T>)
    requires Valid(t)
    ensures |rs| == |Ids(t)|
    ensures forall i :: 0 <= i < |rs| ==> Ids(t)[i] in t.rows && rs[i] == t.rows[Ids(t)[i]]
    ensures forall k :: k in t.rows ==> exists i :: 0 <= i < |rs| && Ids(t)[i] == k
  {
    var ids := Ids(t);
    seq(|ids|, i requires 0 <= i < |ids| => t.rows[ids[i]])
  }
}
