/**
 * The CSV reader of gnome-semilab. libcsv tokenises the input and reports
 * each field (callback `cb1`) and each record end (callback `cb2`); the
 * callbacks below accumulate those reports into growable buffers, and
 * `read_csv` lays the accumulated cells out as a 1-D or 2-D spectrum.
 *
 * libcsv itself is modelled by the sequence of callbacks it makes, an
 * `Event` stream; `strtod` and `strtoul` are function parameters that
 * report the converted value and whether the whole text was consumed.
 */
module CsvReader {
  import Transpose

  newtype byte = x: int | 0 <= x < 256

  type Bytes = seq<byte>

  datatype Option<T> = None | Some(value: T)

  /** One libcsv callback: a field (`cb1`) or the end of a record (`cb2`). */
  datatype Event<C> = Field(cell: C) | EndRecord

  /** What `strtod`/`strtoul` report: the value and whether `*endptr` reached the terminating NUL. */
  datatype Conversion<V> = Conversion(value: V, complete: bool)

  /** Number of values of a C `unsigned int`. */
  const UintRange: nat := 0x1_0000_0000

  /** A C `unsigned int`. */
  newtype uint = x: int | 0 <= x < UintRange

  /** The conversion of an `unsigned long` to `unsigned int`: the value modulo 2^32. */
  function ToUint(v: nat): (r: uint)
    ensures r as int == v % UintRange
    ensures v < UintRange ==> r as int == v
    ensures (v + UintRange) % UintRange == r as int
  {
    (v % UintRange) as uint
  }

  /**
   * `realloc` of a buffer to `n` elements: the old elements are kept, the
   * new ones hold `fill`. A buffer not allocated yet (C's NULL) is an
   * array of length 0, so this is also the first `malloc`/`calloc`.
   */
  method Realloc<T>(a: array<T>, n: nat, fill: T) returns (b: array<T>)
    requires a.Length <= n
    ensures fresh(b) && b.Length == n
    ensures b[..a.Length] == a[..]
    ensures forall i :: a.Length <= i < n ==> b[i] == fill
  {
    b := new T[n](_ => fill);
    forall i | 0 <= i < a.Length {
      b[i] := a[i];
    }
  }

  // ----------------------------------------------------------------------
  // Event streams
  // ----------------------------------------------------------------------

  /** The number of record ends in `evs`. */
  function Ends<C>(evs: seq<Event<C>>): nat {
    if evs == [] then 0
    else Ends(evs[..|evs| - 1]) + (if evs[|evs| - 1].EndRecord? then 1 else 0)
  }

  lemma {:induction false} EndsZero<C>(evs: seq<Event<C>>)
    ensures Ends(evs) == 0 <==> EndRecord !in evs
  {
    if evs != [] {
      var pre := evs[..|evs| - 1];
      assert evs == pre + [evs[|evs| - 1]];
      EndsZero(pre);
    }
  }

  /** The number of fields before the first record end: the width of the first record. */
  function Width<C>(evs: seq<Event<C>>): nat {
    if evs == [] then 0
    else
      var pre := evs[..|evs| - 1];
      Width(pre) + (if evs[|evs| - 1].Field? && Ends(pre) == 0 then 1 else 0)
  }

  /**
   * The cells of the data rows, in the order libcsv reports them: every
   * field, except those of the first record when `skipFirst`.
   */
  function DataCells<C>(evs: seq<Event<C>>, skipFirst: bool): seq<C> {
    if evs == [] then []
    else
      var pre := evs[..|evs| - 1];
      var e := evs[|evs| - 1];
      DataCells(pre, skipFirst) + (if e.Field? && !(skipFirst && Ends(pre) == 0) then [e.cell] else [])
  }

  /**
   * The records of a stream: entry `i` holds the fields between record ends
   * `i` and `i + 1`, and the last entry the fields after the last record end.
   */
  function Records<C>(evs: seq<Event<C>>): (rs: seq<seq<C>>)
    ensures |rs| == Ends(evs) + 1
  {
    if evs == [] then [[]]
    else
      var rs := Records(evs[..|evs| - 1]);
      match evs[|evs| - 1]
      case EndRecord => rs + [[]]
      case Field(c) => rs[..|rs| - 1] + [rs[|rs| - 1] + [c]]
  }

  /** The records of `rs` one after another. */
  function Flatten<T>(rs: seq<seq<T>>): seq<T> {
    if rs == [] then [] else rs[0] + Flatten(rs[1..])
  }

  lemma {:induction false} FlattenSnoc<T>(rs: seq<seq<T>>, r: seq<T>)
    ensures Flatten(rs + [r]) == Flatten(rs) + r
  {
    if rs == [] {
      assert [r][1..] == [];
    } else {
      assert (rs + [r])[1..] == rs[1..] + [r];
      FlattenSnoc(rs[1..], r);
    }
  }

  /** `Width` counts the fields of the first record. */
  lemma {:induction false} WidthIsFirstRecord<C>(evs: seq<Event<C>>)
    ensures Width(evs) == |Records(evs)[0]|
  {
    if evs != [] {
      var pre := evs[..|evs| - 1];
      WidthIsFirstRecord(pre);
      var rs := Records(pre);
      if evs[|evs| - 1].Field? && Ends(pre) > 0 {
        assert Records(evs)[0] == rs[0];
      }
    }
  }

  /** The data cells are the records read in order, without the first when it is skipped. */
  lemma {:induction false} DataCellsRecords<C>(evs: seq<Event<C>>, skipFirst: bool)
    ensures DataCells(evs, skipFirst) == Flatten(Records(evs)[if skipFirst then 1 else 0..])
  {
    var k := if skipFirst then 1 else 0;
    if evs == [] {
      assert Records(evs)[k..] == if skipFirst then [] else [[]];
      var none: seq<seq<C>> := [];
      assert Flatten(none + [[]]) == Flatten(none) + [] by { FlattenSnoc(none, []); }
    } else {
      var pre := evs[..|evs| - 1];
      DataCellsRecords(pre, skipFirst);
      var rs := Records(pre);
      match evs[|evs| - 1]
      case EndRecord =>
        FlattenEndStep(rs, k);
      case Field(c) =>
        if !(skipFirst && Ends(pre) == 0) {
          FlattenFieldStep(rs, k, c);
        }
    }
  }

  /** A record end adds an empty record, which adds no cell. */
  lemma FlattenEndStep<T>(rs: seq<seq<T>>, k: nat)
    requires k <= |rs|
    ensures Flatten((rs + [[]])[k..]) == Flatten(rs[k..])
  {
    assert (rs + [[]])[k..] == rs[k..] + [[]];
    FlattenSnoc(rs[k..], []);
  }

  /** A field extends the last record, which adds that cell at the end. */
  lemma FlattenFieldStep<T>(rs: seq<seq<T>>, k: nat, c: T)
    requires k < |rs|
    ensures Flatten((rs[..|rs| - 1] + [rs[|rs| - 1] + [c]])[k..]) == Flatten(rs[k..]) + [c]
  {
    var last := |rs| - 1;
    assert (rs[..last] + [rs[last] + [c]])[k..] == rs[k..last] + [rs[last] + [c]];
    assert rs[k..] == rs[k..last] + [rs[last]];
    FlattenSnoc(rs[k..last], rs[last] + [c]);
    FlattenSnoc(rs[k..last], rs[last]);
  }

  /** With the first `n` records `nf` long, record `i < n` is the `i`-th run of `nf` cells. */
  lemma {:induction false} FlattenRow<T>(rs: seq<seq<T>>, nf: nat, n: nat, i: nat)
    requires i < n <= |rs|
    requires forall j :: 0 <= j < n ==> |rs[j]| == nf
    ensures i * nf + nf <= |Flatten(rs)|
    ensures Flatten(rs)[i * nf..i * nf + nf] == rs[i]
  {
    var tail := Flatten(rs[1..]);
    assert Flatten(rs) == rs[0] + tail;
    if i > 0 {
      FlattenRow(rs[1..], nf, n - 1, i - 1);
      assert i * nf == (i - 1) * nf + nf;
    }
  }

  /** Every record that has ended has as many fields as the first. */
  ghost predicate Rectangular<C>(evs: seq<Event<C>>) {
    forall j :: 0 <= j < Ends(evs) ==> |Records(evs)[j]| == Width(evs)
  }

  /**
   * In a rectangular stream, the `i`-th run of `Width` data cells is the
   * `i`-th data record: record `i`, or record `i + 1` when the first is skipped.
   */
  lemma DataRecord<C>(evs: seq<Event<C>>, skipFirst: bool, i: nat)
    requires Rectangular(evs) && i + (if skipFirst then 1 else 0) < Ends(evs)
    ensures var nf := Width(evs);
      && i * nf + nf <= |DataCells(evs, skipFirst)|
      && DataCells(evs, skipFirst)[i * nf..i * nf + nf] == Records(evs)[i + if skipFirst then 1 else 0]
  {
    var k := if skipFirst then 1 else 0;
    DataCellsRecords(evs, skipFirst);
    FlattenRow(Records(evs)[k..], Width(evs), Ends(evs) - k, i);
  }

  // ----------------------------------------------------------------------
  // Header: add_fields, count_rows_head, read_csv_fields
  // ----------------------------------------------------------------------

  /** The text `add_fields` stores: the field's bytes, or "" for an empty unquoted field (NULL). */
  function FieldText(s: Option<Bytes>): Bytes {
    if s.Some? then s.value else []
  }

  /** The header buffer's next capacity: 512 the first time, then double. */
  function HeadCapacity(bs: nat): (n: nat)
    ensures n > bs
  {
    if bs > 0 then 2 * bs else 512
  }

  /** The texts of the fields before the first record end. */
  function FirstRecord(evs: seq<Event<Option<Bytes>>>): (r: seq<Bytes>)
    ensures |r| <= |evs|
  {
    if evs == [] || evs[0].EndRecord? then []
    else [FieldText(evs[0].cell)] + FirstRecord(evs[1..])
  }

  /** Appending an event to a stream extends its first record only while no record has ended. */
  lemma {:induction false} FirstRecordSnoc(evs: seq<Event<Option<Bytes>>>, e: Event<Option<Bytes>>)
    ensures FirstRecord(evs + [e]) ==
      if EndRecord in evs || e.EndRecord? then FirstRecord(evs) else FirstRecord(evs) + [FieldText(e.cell)]
  {
    if evs != [] {
      assert (evs + [e])[1..] == evs[1..] + [e];
      FirstRecordSnoc(evs[1..], e);
      if evs[0].Field? {
        assert EndRecord in evs[1..] <==> EndRecord in evs;
      }
    }
  }

  /** `struct csv_head`: the header fields collected so far. */
  class Header {
    var fields: array<Bytes>
    var size: nat
    var bufferSize: nat
    var numRows: nat

    ghost predicate Valid()
      reads this
    {
      && fields.Length == bufferSize
      && (size == 0 <==> bufferSize == 0)
      && size <= bufferSize
    }

    /** The fields stored so far. */
    ghost function Fields(): seq<Bytes>
      reads this, fields
      requires Valid()
    {
      fields[..size]
    }

    /** `struct csv_head head = {0}`. */
    constructor()
      ensures Valid() && Fields() == [] && fresh(fields)
      ensures size == 0 && bufferSize == 0 && numRows == 0
    {
      fields := new Bytes[0];
      size := 0;
      bufferSize := 0;
      numRows := 0;
    }

    /** `add_fields`: stores the field while no record has ended yet. */
    method AddField(s: Option<Bytes>)
      requires Valid()
      modifies this, fields
      ensures Valid() && numRows == old(numRows)
      ensures fields == old(fields) || fresh(fields)
      ensures old(numRows) > 0 ==>
        size == old(size) && bufferSize == old(bufferSize) && Fields() == old(Fields())
      ensures old(numRows) == 0 ==>
        && size == old(size) + 1
        && bufferSize == (if old(size) + 1 >= old(bufferSize) then HeadCapacity(old(bufferSize)) else old(bufferSize))
        && Fields() == old(Fields()) + [FieldText(s)]
    {
      if numRows > 0 {
        return;
      }
      ghost var stored := Fields();
      if size + 1 >= bufferSize {
        GrowFields();
      }
      fields[size] := FieldText(s);
      size := size + 1;
      assert fields[..size] == stored + [FieldText(s)];
    }

    /**
     * The growth step of `add_fields`: the capacity becomes 512, then
     * doubles, and the stored fields are kept.
     */
    method GrowFields()
      requires Valid()
      modifies this
      ensures fresh(fields) && fields.Length == bufferSize && size < bufferSize
      ensures bufferSize == HeadCapacity(old(bufferSize))
      ensures size == old(size) && numRows == old(numRows)
      ensures fields[..size] == old(fields[..size])
    {
      bufferSize := HeadCapacity(bufferSize);
      fields := Realloc(fields, bufferSize, []);
    }

    /** `count_rows_head`: one more record has ended. */
    method CountRow()
      requires Valid()
      modifies this
      ensures Valid() && numRows == old(numRows) + 1
      ensures fields == old(fields) && size == old(size) && bufferSize == old(bufferSize)
      ensures Fields() == old(Fields())
    {
      numRows := numRows + 1;
    }

    /**
     * libcsv reporting the event `e` after `seen`: a field goes to
     * `add_fields`, the end of a record to `count_rows_head`.
     */
    method Dispatch(e: Event<Option<Bytes>>, ghost seen: seq<Event<Option<Bytes>>>)
      requires Valid() && numRows == Ends(seen) && Fields() == FirstRecord(seen)
      modifies this, fields
      ensures Valid() && (fields == old(fields) || fresh(fields))
      ensures numRows == Ends(seen + [e]) && Fields() == FirstRecord(seen + [e])
    {
      assert (seen + [e])[..|seen|] == seen;
      EndsZero(seen);
      FirstRecordSnoc(seen, e);
      match e {
        case Field(c) => AddField(c);
        case EndRecord => CountRow();
      }
    }
  }

  /**
   * `read_csv_fields`: `fields` is the returned pointer (null when a read
   * failed, when no record ended, or when the first record had no field),
   * `length` the value written to `*length` (untouched when a read failed or
   * no record ended). `readOk` says whether every `fread` before the first
   * record end returned a full chunk or reached the end of the file.
   */
  method ReadCsvFields(events: seq<Event<Option<Bytes>>>, readOk: bool)
    returns (fields: Option<seq<Bytes>>, length: Option<int>)
    ensures length.Some? <==> readOk && EndRecord in events
    ensures length.Some? ==> length.value == |FirstRecord(events)| - 1
    ensures fields.Some? <==> readOk && EndRecord in events && FirstRecord(events) != []
    ensures fields.Some? ==> fields.value == FirstRecord(events)
  {
    var head := new Header();
    if !readOk {
      return None, None;
    }
    var i := 0;
    while i < |events|
      invariant 0 <= i <= |events|
      invariant head.Valid() && fresh(head.fields)
      invariant head.numRows == Ends(events[..i])
      invariant head.Fields() == FirstRecord(events[..i])
    {
      assert events[..i + 1] == events[..i] + [events[i]];
      head.Dispatch(events[i], events[..i]);
      i := i + 1;
    }
    assert events[..i] == events;
    EndsZero(events);
    if head.numRows == 0 {
      return None, None;
    }
    length := Some(head.size - 1);
    if head.bufferSize == 0 {
      return None, length;
    }
    fields := Some(head.fields[..head.size]);
  }

  // ----------------------------------------------------------------------
  // Body: cb1_double_double, cb2_double_double
  // ----------------------------------------------------------------------

  /** Whether a cell starts with the UTF-8 byte order mark EF BB BF. */
  predicate HasBom(s: Bytes)
  {
    |s| >= 3 && s[0] == 0xEF && s[1] == 0xBB && s[2] == 0xBF
  }

  /**
   * The next capacity of a body buffer: double the old one, or
   * `num_cols * 1024` for the first allocation, and 1024 if that is 0.
   */
  function BodyCapacity(bs: nat, numCols: nat): (n: nat)
    ensures n > bs
    ensures bs == 0 ==> n == (if numCols > 0 then numCols * 1024 else 1024)
    ensures bs > 0 ==> n == 2 * bs
    ensures bs == 0 ==> n >= 1024
  {
    var n := if bs > 0 then 2 * bs else numCols * 1024;
    if n > 0 then n else 1024
  }

  /**
   * The state of `struct csv_body_double_double`, its buffer as the stored
   * cells. `zeroed` is the length of the first allocation, which `calloc`
   * filled with zeros; a later `realloc` leaves its new tail indeterminate,
   * so past the stored cells only the first `zeroed` slots have a value.
   */
  datatype Accum = Accum(cells: seq<real>, bufferSize: nat, zeroed: nat, numRows: nat, currNumCols: nat, numCols: nat, error: bool)

  /** `struct csv_body_double_double body = {0}`. */
  const Fresh: Accum := Accum([], 0, 0, 0, 0, 0, false)

  /** There is room for one more cell, or nothing was stored yet; the zero-filled block lies inside the buffer. */
  predicate Fits(a: Accum) {
    (|a.cells| < a.bufferSize || a.cells == []) && a.zeroed <= a.bufferSize
  }

  /** A cell that sets the error flag when it is a data cell. */
  predicate BadCell(s: Bytes, strtod: Bytes -> Conversion<real>) {
    HasBom(s) || !strtod(s).complete
  }

  /** The values `strtod` makes of `cells`. */
  function Values(cells: seq<Bytes>, strtod: Bytes -> Conversion<real>): (v: seq<real>)
    ensures |v| == |cells|
  {
    seq(|cells|, i requires 0 <= i < |cells| => strtod(cells[i]).value)
  }

  /**
   * The storing half of `cb1_double_double` on state `a` for the field `s`:
   * grow the buffer when `size + 1` reaches its capacity, refuse a cell
   * with a byte order mark, and store the converted value otherwise.
   */
  function Store(a: Accum, s: Bytes, strtod: Bytes -> Conversion<real>): (b: Accum)
    requires !a.error
    ensures b.numRows == a.numRows && b.currNumCols == a.currNumCols && b.numCols == a.numCols
    ensures b.bufferSize == (if |a.cells| + 1 >= a.bufferSize then BodyCapacity(a.bufferSize, a.numCols) else a.bufferSize)
    ensures b.zeroed == (if a.bufferSize == 0 then BodyCapacity(0, a.numCols) else a.zeroed)
    ensures Fits(a) ==> Fits(b)
    ensures HasBom(s) ==> b.cells == a.cells && b.error
    ensures !HasBom(s) ==> b.cells == a.cells + [strtod(s).value] && (b.error <==> !strtod(s).complete)
  {
    var a :=
      if a.bufferSize == 0 then a.(bufferSize := BodyCapacity(0, a.numCols), zeroed := BodyCapacity(0, a.numCols))
      else if |a.cells| + 1 >= a.bufferSize then a.(bufferSize := BodyCapacity(a.bufferSize, a.numCols))
      else a;
    if HasBom(s) then a.(error := true)
    else
      var c := strtod(s);
      a.(cells := a.cells + [c.value], error := !c.complete)
  }

  /** `cb1_double_double` on state `a` for the field `s`. */
  function OnCell(a: Accum, withHeader: bool, s: Bytes, strtod: Bytes -> Conversion<real>): (b: Accum)
    ensures a.error ==> b == a
    ensures b.numRows == a.numRows
    ensures !a.error && a.numRows == 0 ==> b.currNumCols == a.currNumCols + 1 && b.numCols == a.numCols + 1
    ensures a.error || a.numRows > 0 ==> b.currNumCols == a.currNumCols && b.numCols == a.numCols
    ensures Fits(a) ==> Fits(b)
    ensures b.cells == a.cells || b.cells == a.cells + [strtod(s).value]
    ensures b.cells != a.cells <==> !a.error && !(withHeader && a.numRows == 0) && !HasBom(s)
    ensures !a.error && !(withHeader && a.numRows == 0) ==> (b.error <==> BadCell(s, strtod))
    ensures !a.error && withHeader && a.numRows == 0 ==> b.cells == a.cells && b.bufferSize == a.bufferSize && b.zeroed == a.zeroed && !b.error
  {
    if a.error then a
    else
      var a := if a.numRows == 0 then a.(currNumCols := a.currNumCols + 1, numCols := a.numCols + 1) else a;
      if withHeader && a.numRows == 0 then a else Store(a, s, strtod)
  }

  /** `cb2_double_double` on state `a`. */
  function OnRecord(a: Accum): (b: Accum)
    ensures b.numRows == a.numRows + 1
    ensures b.cells == a.cells && b.bufferSize == a.bufferSize && b.zeroed == a.zeroed
    ensures b.currNumCols == a.currNumCols && b.numCols == a.numCols
    ensures b.error <==> a.error || a.currNumCols != a.numCols
  {
    a.(numRows := a.numRows + 1, error := a.error || a.currNumCols != a.numCols)
  }

  /** The state after libcsv has reported `evs` to the double/double callbacks. */
  function Replay(withHeader: bool, evs: seq<Event<Bytes>>, strtod: Bytes -> Conversion<real>): (a: Accum)
    ensures a.currNumCols == a.numCols && Fits(a) && a.numRows == Ends(evs)
  {
    if evs == [] then Fresh
    else
      var a := Replay(withHeader, evs[..|evs| - 1], strtod);
      match evs[|evs| - 1]
      case Field(s) => OnCell(a, withHeader, s, strtod)
      case EndRecord => OnRecord(a)
  }

  /** The row check of `cb2_double_double` never sets the error flag. */
  lemma RowCheckHolds(withHeader: bool, evs: seq<Event<Bytes>>, strtod: Bytes -> Conversion<real>)
    ensures Replay(withHeader, evs + [EndRecord], strtod).error == Replay(withHeader, evs, strtod).error
  {
    assert (evs + [EndRecord])[..|evs|] == evs;
  }

  /** Without an error, the buffer holds the values of the data cells and `num_cols` is the first record's width. */
  lemma {:induction false} ReplayStores(withHeader: bool, evs: seq<Event<Bytes>>, strtod: Bytes -> Conversion<real>)
    ensures var a := Replay(withHeader, evs, strtod);
      !a.error ==> a.cells == Values(DataCells(evs, withHeader), strtod) && a.numCols == Width(evs)
  {
    if evs != [] {
      var pre := evs[..|evs| - 1];
      ReplayStores(withHeader, pre, strtod);
      var a, b := Replay(withHeader, pre, strtod), Replay(withHeader, evs, strtod);
      if !b.error {
        assert !a.error;
        var d := DataCells(pre, withHeader);
        if evs[|evs| - 1].Field? && !(withHeader && Ends(pre) == 0) {
          assert Values(d + [evs[|evs| - 1].cell], strtod) == Values(d, strtod) + [strtod(evs[|evs| - 1].cell).value];
        }
      }
    }
  }

  /**
   * The zero-filled first block: with a header it is allocated after the
   * header row, `num_cols * 1024` slots (1024 for an empty header);
   * without one, at the first cell when `num_cols` is at most 1, 1024 slots.
   */
  lemma {:induction false} ReplayZeroed(withHeader: bool, evs: seq<Event<Bytes>>, strtod: Bytes -> Conversion<real>)
    ensures var a := Replay(withHeader, evs, strtod);
      && (a.bufferSize == 0 <==> a.zeroed == 0)
      && (withHeader && a.bufferSize > 0 ==> a.numRows > 0 && a.zeroed == BodyCapacity(0, a.numCols))
      && (!withHeader && a.bufferSize > 0 ==> a.zeroed == 1024)
      && (!withHeader && a.bufferSize == 0 ==> a.numCols == 0)
  {
    if evs != [] {
      var pre := evs[..|evs| - 1];
      ReplayZeroed(withHeader, pre, strtod);
    }
  }

  /** One event sets the error flag exactly when it adds a bad data cell. */
  lemma ErrorStep(withHeader: bool, evs: seq<Event<Bytes>>, strtod: Bytes -> Conversion<real>)
    requires evs != []
    ensures var pre := evs[..|evs| - 1];
      var d, d' := DataCells(pre, withHeader), DataCells(evs, withHeader);
      && (|d'| == |d| || |d'| == |d| + 1) && d'[..|d|] == d
      && (Replay(withHeader, evs, strtod).error <==>
            Replay(withHeader, pre, strtod).error || (|d'| > |d| && BadCell(d'[|d|], strtod)))
  {
    var pre := evs[..|evs| - 1];
    var a := Replay(withHeader, pre, strtod);
    match evs[|evs| - 1]
    case Field(s) =>
      assert Replay(withHeader, evs, strtod) == OnCell(a, withHeader, s, strtod);
    case EndRecord =>
  }

  /** The error flag is set exactly when some data cell starts with a BOM or is not entirely a number. */
  lemma {:induction false} ReplayError(withHeader: bool, evs: seq<Event<Bytes>>, strtod: Bytes -> Conversion<real>)
    ensures Replay(withHeader, evs, strtod).error <==>
      exists k :: 0 <= k < |DataCells(evs, withHeader)| && BadCell(DataCells(evs, withHeader)[k], strtod)
  {
    if evs != [] {
      var pre := evs[..|evs| - 1];
      ReplayError(withHeader, pre, strtod);
      ErrorStep(withHeader, evs, strtod);
      var d, d' := DataCells(pre, withHeader), DataCells(evs, withHeader);
      if Replay(withHeader, evs, strtod).error {
        if Replay(withHeader, pre, strtod).error {
          var k :| 0 <= k < |d| && BadCell(d[k], strtod);
          assert d'[k] == d[k];
        } else {
          assert BadCell(d'[|d|], strtod);
        }
      } else {
        forall k | 0 <= k < |d'|
          ensures !BadCell(d'[k], strtod)
        {
          if k < |d| {
            assert d'[k] == d[k];
          }
        }
      }
    }
  }

  /** `struct csv_body_double_double`, the body accumulator `read_csv` uses. */
  class Body {
    var data: array<real>
    var size: nat
    var bufferSize: nat
    var numRows: nat
    var currNumCols: nat
    var numCols: nat
    var error: bool
    const withHeader: bool
    const strtod: Bytes -> Conversion<real>
    /**
     * The length of the first, `calloc`ed block of `data`. The C struct has
     * no such field; it records which slots past `size` hold zeros.
     */
    var zeroed: nat

    /** The slots of the first block that no cell has reached yet still hold the zeros of `calloc`. */
    ghost predicate Valid()
      reads this, data
    {
      && data.Length == bufferSize
      && (size < bufferSize || size == 0)
      && zeroed <= bufferSize
      && forall j :: size <= j < zeroed ==> data[j] == 0.0
    }

    /** The accumulator state, with the buffer as its stored cells. */
    ghost function State(): Accum
      reads this, data
      requires Valid()
    {
      Accum(data[..size], bufferSize, zeroed, numRows, currNumCols, numCols, error)
    }

    constructor(withHeader: bool, strtod: Bytes -> Conversion<real>)
      ensures Valid() && State() == Fresh && fresh(data)
      ensures this.withHeader == withHeader && this.strtod == strtod
    {
      data := new real[0];
      size, bufferSize, numRows, currNumCols, numCols, error := 0, 0, 0, 0, 0, false;
      zeroed := 0;
      this.withHeader := withHeader;
      this.strtod := strtod;
    }

    /** `cb1_double_double`. */
    method OnField(s: Bytes)
      requires Valid()
      modifies this, data
      ensures Valid() && (data == old(data) || fresh(data))
      ensures State() == OnCell(old(State()), withHeader, s, strtod)
    {
      if error {
        return;
      }
      if numRows == 0 {
        currNumCols := currNumCols + 1;
        numCols := numCols + 1;
        if withHeader {
          return;
        }
      }
      StoreField(s);
    }

    /** The storing half of `cb1_double_double`. */
    method StoreField(s: Bytes)
      requires Valid() && !error
      modifies this, data
      ensures Valid() && (data == old(data) || fresh(data))
      ensures State() == Store(old(State()), s, strtod)
    {
      ghost var cells := State().cells;
      if size + 1 >= bufferSize {
        GrowData();
      }
      if HasBom(s) {
        error := true;
        return;
      }
      var c := strtod(s);
      data[size] := c.value;
      size := size + 1;
      assert data[..size] == cells + [c.value];
      if !c.complete {
        error := true;
      }
    }

    /** The growth step of `cb1_double_double`: `calloc` of the first block, `realloc` of a later one. */
    method GrowData()
      requires Valid() && size + 1 >= bufferSize
      modifies this
      ensures Valid() && fresh(data)
      ensures State() == old(State()).(bufferSize := BodyCapacity(old(bufferSize), numCols),
                                      zeroed := if old(bufferSize) == 0 then bufferSize else old(zeroed))
    {
      ghost var cells := State().cells;
      if bufferSize == 0 {
        bufferSize := BodyCapacity(0, numCols);
        zeroed := bufferSize;
      } else {
        bufferSize := BodyCapacity(bufferSize, numCols);
      }
      data := Realloc(data, bufferSize, 0.0);
      assert data[..size] == cells;
    }

    /** `cb2_double_double`. */
    method OnRecordEnd()
      requires Valid()
      modifies this
      ensures Valid() && data == old(data)
      ensures State() == OnRecord(old(State()))
    {
      numRows := numRows + 1;
      if currNumCols != numCols {
        error := true;
      }
    }

    /** libcsv reporting the event `e` after `seen`: a field goes to `cb1`, a record end to `cb2`. */
    method Dispatch(e: Event<Bytes>, ghost seen: seq<Event<Bytes>>)
      requires Valid() && State() == Replay(withHeader, seen, strtod)
      modifies this, data
      ensures Valid() && (data == old(data) || fresh(data))
      ensures State() == Replay(withHeader, seen + [e], strtod)
    {
      assert (seen + [e])[..|seen|] == seen;
      match e {
        case Field(s) => OnField(s);
        case EndRecord => OnRecordEnd();
      }
    }
  }

  // ----------------------------------------------------------------------
  // Body: cb1_uint_double, cb2_uint_double
  // ----------------------------------------------------------------------

  /**
   * The state of `struct csv_body_uint_double`, its two buffers as the
   * values stored in them; `size` is the total number of values stored.
   */
  datatype PairAccum = PairAccum(
    wavelengths: seq<uint>, intensities: seq<real>, bufferSize: nat,
    numRows: nat, currNumCols: nat, numCols: nat, error: bool, bufReallocated: bool)
  {
    function Size(): nat {
      |wavelengths| + |intensities|
    }
  }

  /** `struct csv_body_uint_double body = {0}`. */
  const FreshPairs: PairAccum := PairAccum([], [], 0, 0, 0, 0, false, false)

  /**
   * The shape the pair buffers keep: cells alternate between the two
   * buffers starting with `wavelengths`, so `size` is even exactly when
   * both hold as many values; the capacity covers both buffers' values;
   * `buf_reallocated` is set only between the growth of `wavelengths`
   * and the next intensity.
   */
  predicate PairsFit(a: PairAccum) {
    && (|a.wavelengths| == |a.intensities| || |a.wavelengths| == |a.intensities| + 1)
    && 2 * |a.wavelengths| <= a.bufferSize
    && (a.Size() == 0 ==> a.bufferSize == 0 && !a.bufReallocated)
    && (a.bufReallocated ==> |a.wavelengths| == |a.intensities| + 1)
  }

  /** A data cell in column `k % 2` whose conversion stops short of the end of the text. */
  predicate BadPairCell(k: nat, s: Bytes, strtoul: Bytes -> Conversion<nat>, strtod: Bytes -> Conversion<real>) {
    if k % 2 == 0 then !strtoul(s).complete else !strtod(s).complete
  }

  /**
   * The storing half of `cb1_uint_double`: an even `size` takes the cell as
   * a wavelength (`strtoul`, base 10, truncated to `unsigned int`), growing
   * the buffers first when `size + 1` reaches the capacity; an odd `size`
   * takes it as an intensity (`strtod`).
   */
  function StorePair(a: PairAccum, s: Bytes, strtoul: Bytes -> Conversion<nat>, strtod: Bytes -> Conversion<real>): (b: PairAccum)
    requires !a.error
    ensures b.numRows == a.numRows && b.currNumCols == a.currNumCols && b.numCols == a.numCols
    ensures PairsFit(a) ==> PairsFit(b)
    ensures b.Size() == a.Size() + 1
    ensures |a.wavelengths| == |a.intensities| ==>
      && b.wavelengths == a.wavelengths + [ToUint(strtoul(s).value)] && b.intensities == a.intensities
      && (b.error <==> !strtoul(s).complete)
      && b.bufferSize == (if a.Size() + 1 >= a.bufferSize then BodyCapacity(a.bufferSize, a.numCols) else a.bufferSize)
    ensures |a.wavelengths| != |a.intensities| ==>
      && b.intensities == a.intensities + [strtod(s).value] && b.wavelengths == a.wavelengths
      && (b.error <==> !strtod(s).complete)
      && b.bufferSize == a.bufferSize
  {
    if |a.wavelengths| == |a.intensities| then
      var a := if a.Size() + 1 >= a.bufferSize then a.(bufferSize := BodyCapacity(a.bufferSize, a.numCols), bufReallocated := true) else a;
      var c := strtoul(s);
      a.(wavelengths := a.wavelengths + [ToUint(c.value)], error := !c.complete)
    else
      var c := strtod(s);
      a.(intensities := a.intensities + [c.value], bufReallocated := false, error := !c.complete)
  }

  /** `cb1_uint_double` on state `a` for the field `s`: the first record only counts columns. */
  function OnPairCell(a: PairAccum, s: Bytes, strtoul: Bytes -> Conversion<nat>, strtod: Bytes -> Conversion<real>): (b: PairAccum)
    ensures a.error ==> b == a
    ensures b.numRows == a.numRows
    ensures !a.error && a.numRows == 0 ==>
      b == a.(currNumCols := a.currNumCols + 1, numCols := a.numCols + 1)
    ensures a.error || a.numRows > 0 ==> b.currNumCols == a.currNumCols && b.numCols == a.numCols
    ensures !a.error && a.numRows > 0 ==> b.Size() == a.Size() + 1
    ensures PairsFit(a) ==> PairsFit(b)
  {
    if a.error then a
    else if a.numRows == 0 then a.(currNumCols := a.currNumCols + 1, numCols := a.numCols + 1)
    else StorePair(a, s, strtoul, strtod)
  }

  /** `cb2_uint_double` on state `a`. */
  function OnPairRecord(a: PairAccum): (b: PairAccum)
    ensures b.numRows == a.numRows + 1
    ensures b.wavelengths == a.wavelengths && b.intensities == a.intensities && b.bufferSize == a.bufferSize
    ensures b.currNumCols == a.currNumCols && b.numCols == a.numCols && b.bufReallocated == a.bufReallocated
    ensures b.error <==> a.error || a.currNumCols != a.numCols
  {
    a.(numRows := a.numRows + 1, error := a.error || a.currNumCols != a.numCols)
  }

  /** The state after libcsv has reported `evs` to the uint/double callbacks. */
  function ReplayPairs(evs: seq<Event<Bytes>>, strtoul: Bytes -> Conversion<nat>, strtod: Bytes -> Conversion<real>): (a: PairAccum)
    ensures a.currNumCols == a.numCols && PairsFit(a) && a.numRows == Ends(evs)
  {
    if evs == [] then FreshPairs
    else
      var a := ReplayPairs(evs[..|evs| - 1], strtoul, strtod);
      match evs[|evs| - 1]
      case Field(s) => OnPairCell(a, s, strtoul, strtod)
      case EndRecord => OnPairRecord(a)
  }

  /**
   * Without an error, the k-th data cell (the first record skipped) is
   * `wavelengths[k / 2]` when k is even and `intensities[k / 2]` when k is odd.
   */
  lemma {:induction false} ReplayPairsPlacement(evs: seq<Event<Bytes>>, strtoul: Bytes -> Conversion<nat>, strtod: Bytes -> Conversion<real>)
    ensures var a, d := ReplayPairs(evs, strtoul, strtod), DataCells(evs, true);
      !a.error ==>
        && |a.wavelengths| == (|d| + 1) / 2 && |a.intensities| == |d| / 2
        && forall k :: 0 <= k < |d| ==>
             if k % 2 == 0 then a.wavelengths[k / 2] == ToUint(strtoul(d[k]).value)
             else a.intensities[k / 2] == strtod(d[k]).value
  {
    if evs != [] {
      var pre := evs[..|evs| - 1];
      ReplayPairsPlacement(pre, strtoul, strtod);
      var a, b := ReplayPairs(pre, strtoul, strtod), ReplayPairs(evs, strtoul, strtod);
      var d, d' := DataCells(pre, true), DataCells(evs, true);
      if !b.error {
        assert !a.error;
        assert forall k :: 0 <= k < |d| ==> d'[k] == d[k];
      }
    }
  }

  /** One event sets the error flag exactly when it adds a data cell that does not convert in its column. */
  lemma PairErrorStep(evs: seq<Event<Bytes>>, strtoul: Bytes -> Conversion<nat>, strtod: Bytes -> Conversion<real>)
    requires evs != []
    ensures var pre := evs[..|evs| - 1];
      var d, d' := DataCells(pre, true), DataCells(evs, true);
      && (|d'| == |d| || |d'| == |d| + 1) && d'[..|d|] == d
      && (ReplayPairs(evs, strtoul, strtod).error <==>
            ReplayPairs(pre, strtoul, strtod).error || (|d'| > |d| && BadPairCell(|d|, d'[|d|], strtoul, strtod)))
  {
    var pre := evs[..|evs| - 1];
    var a := ReplayPairs(pre, strtoul, strtod);
    ReplayPairsPlacement(pre, strtoul, strtod);
    match evs[|evs| - 1]
    case Field(s) =>
      assert ReplayPairs(evs, strtoul, strtod) == OnPairCell(a, s, strtoul, strtod);
      if !a.error && a.numRows > 0 {
        assert OnPairCell(a, s, strtoul, strtod) == StorePair(a, s, strtoul, strtod);
      }
    case EndRecord =>
  }

  /** The error flag is set exactly when some data cell does not convert completely in its column. */
  lemma {:induction false} ReplayPairsError(evs: seq<Event<Bytes>>, strtoul: Bytes -> Conversion<nat>, strtod: Bytes -> Conversion<real>)
    ensures ReplayPairs(evs, strtoul, strtod).error <==>
      exists k :: 0 <= k < |DataCells(evs, true)| && BadPairCell(k, DataCells(evs, true)[k], strtoul, strtod)
  {
    if evs != [] {
      var pre := evs[..|evs| - 1];
      ReplayPairsError(pre, strtoul, strtod);
      PairErrorStep(evs, strtoul, strtod);
      var d, d' := DataCells(pre, true), DataCells(evs, true);
      if ReplayPairs(evs, strtoul, strtod).error {
        if ReplayPairs(pre, strtoul, strtod).error {
          var k :| 0 <= k < |d| && BadPairCell(k, d[k], strtoul, strtod);
          assert d'[k] == d[k];
        } else {
          assert BadPairCell(|d|, d'[|d|], strtoul, strtod);
        }
      } else {
        forall k | 0 <= k < |d'|
          ensures !BadPairCell(k, d'[k], strtoul, strtod)
        {
          if k < |d| {
            assert d'[k] == d[k];
          }
        }
      }
    }
  }

  /** `size` splits into the two buffers' counts: even exactly when they are equal, and `size / 2` is the intensity count. */
  lemma Halves(wavelengthCount: nat, intensityCount: nat)
    requires wavelengthCount == intensityCount || wavelengthCount == intensityCount + 1
    ensures (wavelengthCount + intensityCount) % 2 == 0 <==> wavelengthCount == intensityCount
    ensures (wavelengthCount + intensityCount) / 2 == intensityCount
  {
  }

  /** `struct csv_body_uint_double`: wavelengths as `unsigned int`, intensities as `double`. */
  class PairBody {
    var wavelengths: array<uint>
    var intensities: array<real>
    var size: nat
    var bufferSize: nat
    var numRows: nat
    var currNumCols: nat
    var numCols: nat
    var error: bool
    var bufReallocated: bool
    const strtoul: Bytes -> Conversion<nat>
    const strtod: Bytes -> Conversion<real>
    /** How many of the `size` values are wavelengths and how many intensities. */
    ghost var wavelengthCount: nat
    ghost var intensityCount: nat

    ghost predicate Valid()
      reads this
    {
      && size == wavelengthCount + intensityCount
      && (wavelengthCount == intensityCount || wavelengthCount == intensityCount + 1)
      && wavelengths.Length == bufferSize
      && 2 * wavelengthCount <= bufferSize
      && intensityCount <= intensities.Length <= bufferSize
      && (!bufReallocated ==> intensities.Length == bufferSize)
    }

    /** The accumulator state, with the buffers as the values stored in them. */
    ghost function State(): PairAccum
      reads this, wavelengths, intensities
      requires Valid()
    {
      PairAccum(wavelengths[..wavelengthCount], intensities[..intensityCount],
        bufferSize, numRows, currNumCols, numCols, error, bufReallocated)
    }

    constructor(strtoul: Bytes -> Conversion<nat>, strtod: Bytes -> Conversion<real>)
      ensures Valid() && State() == FreshPairs && fresh(wavelengths) && fresh(intensities)
      ensures this.strtoul == strtoul && this.strtod == strtod
    {
      wavelengths, intensities := new uint[0], new real[0];
      size, bufferSize, numRows, currNumCols, numCols := 0, 0, 0, 0, 0;
      error, bufReallocated := false, false;
      this.strtoul := strtoul;
      this.strtod := strtod;
      wavelengthCount, intensityCount := 0, 0;
    }

    /** `cb1_uint_double`. */
    method OnField(s: Bytes)
      requires Valid()
      modifies this, wavelengths, intensities
      ensures Valid()
      ensures wavelengths == old(wavelengths) || fresh(wavelengths)
      ensures intensities == old(intensities) || fresh(intensities)
      ensures State() == OnPairCell(old(State()), s, strtoul, strtod)
    {
      if error {
        return;
      }
      if numRows == 0 {
        currNumCols := currNumCols + 1;
        numCols := numCols + 1;
        return;
      }
      Halves(wavelengthCount, intensityCount);
      if size % 2 == 0 {
        StoreWavelength(s);
      } else {
        StoreIntensity(s);
      }
    }

    /** The even-`size` half of `cb1_uint_double`. */
    method StoreWavelength(s: Bytes)
      requires Valid() && !error && wavelengthCount == intensityCount
      modifies this, wavelengths
      ensures Valid() && intensities == old(intensities)
      ensures wavelengths == old(wavelengths) || fresh(wavelengths)
      ensures State() == StorePair(old(State()), s, strtoul, strtod)
    {
      if size + 1 >= bufferSize {
        GrowWavelengths();
      }
      var c := strtoul(s);
      PutWavelength(ToUint(c.value));
      if !c.complete {
        error := true;
      }
    }

    /** Doubles (or first allocates) the capacity and the wavelength buffer, keeping its values. */
    method GrowWavelengths()
      requires Valid()
      modifies this, wavelengths
      ensures Valid() && fresh(wavelengths) && intensities == old(intensities)
      ensures size == old(size) && wavelengthCount == old(wavelengthCount) && intensityCount == old(intensityCount)
      ensures State() == old(State()).(bufferSize := BodyCapacity(old(bufferSize), numCols), bufReallocated := true)
    {
      ghost var stored := wavelengths[..wavelengthCount];
      bufferSize := BodyCapacity(bufferSize, numCols);
      wavelengths := Realloc(wavelengths, bufferSize, 0);
      bufReallocated := true;
      assert wavelengths[..wavelengthCount] == stored;
    }

    /** `wavelengths[size++ / 2] = v`, with room for it. */
    method PutWavelength(v: uint)
      requires Valid() && wavelengthCount == intensityCount && 2 * wavelengthCount + 2 <= bufferSize
      modifies this, wavelengths
      ensures Valid() && wavelengths == old(wavelengths) && intensities == old(intensities)
      ensures State() == old(State()).(wavelengths := old(State()).wavelengths + [v])
    {
      ghost var stored := wavelengths[..wavelengthCount];
      Halves(wavelengthCount, intensityCount);
      wavelengths[size / 2] := v;
      size := size + 1;
      wavelengthCount := wavelengthCount + 1;
      assert wavelengths[..wavelengthCount] == stored + [v];
    }

    /** Brings the intensity buffer to the current capacity, keeping its values. */
    method GrowIntensities()
      requires Valid()
      modifies this
      ensures Valid() && fresh(intensities) && wavelengths == old(wavelengths) && intensities.Length == bufferSize
      ensures size == old(size) && wavelengthCount == old(wavelengthCount) && intensityCount == old(intensityCount)
      ensures State() == old(State()).(bufReallocated := false)
    {
      ghost var stored := intensities[..intensityCount];
      intensities := Realloc(intensities, bufferSize, 0.0);
      bufReallocated := false;
      assert intensities[..intensityCount] == stored;
    }

    /** `intensities[size++ / 2] = v`, with room for it. */
    method PutIntensity(v: real)
      requires Valid() && wavelengthCount == intensityCount + 1 && intensityCount < intensities.Length
      modifies this, intensities
      ensures Valid() && wavelengths == old(wavelengths) && intensities == old(intensities)
      ensures State() == old(State()).(intensities := old(State()).intensities + [v])
    {
      ghost var stored := intensities[..intensityCount];
      Halves(wavelengthCount, intensityCount);
      intensities[size / 2] := v;
      size := size + 1;
      intensityCount := intensityCount + 1;
      assert intensities[..intensityCount] == stored + [v];
    }

    /**
     * The odd-`size` half of `cb1_uint_double`. After the wavelength buffer
     * grew, the intensity buffer is brought to the same capacity with its
     * contents kept.
     */
    method StoreIntensity(s: Bytes)
      requires Valid() && !error && wavelengthCount == intensityCount + 1
      modifies this, intensities
      ensures Valid() && wavelengths == old(wavelengths)
      ensures intensities == old(intensities) || fresh(intensities)
      ensures State() == StorePair(old(State()), s, strtoul, strtod)
    {
      if bufReallocated {
        GrowIntensities();
      }
      var c := strtod(s);
      PutIntensity(c.value);
      if !c.complete {
        error := true;
      }
    }

    /** `cb2_uint_double`. */
    method OnRecordEnd()
      requires Valid()
      modifies this
      ensures Valid() && wavelengths == old(wavelengths) && intensities == old(intensities)
      ensures State() == OnPairRecord(old(State()))
    {
      numRows := numRows + 1;
      if currNumCols != numCols {
        error := true;
      }
    }

    /** libcsv reporting the event `e` after `seen` through `csv_parse_generic` on this body type. */
    method Dispatch(e: Event<Bytes>, ghost seen: seq<Event<Bytes>>)
      requires Valid() && State() == ReplayPairs(seen, strtoul, strtod)
      modifies this, wavelengths, intensities
      ensures Valid()
      ensures wavelengths == old(wavelengths) || fresh(wavelengths)
      ensures intensities == old(intensities) || fresh(intensities)
      ensures State() == ReplayPairs(seen + [e], strtoul, strtod)
    {
      assert (seen + [e])[..|seen|] == seen;
      match e {
        case Field(s) => OnField(s);
        case EndRecord => OnRecordEnd();
      }
    }
  }

  // ----------------------------------------------------------------------
  // read_csv: the layout of the accumulated cells
  // ----------------------------------------------------------------------

  /** The `axis` argument of `read_csv`. */
  datatype Axis = Vertical | Horizontal

  /**
   * What `read_csv` returns. `Failed` is the null pointer; `Undefined`
   * stands for a run whose result C leaves undefined (a division by zero,
   * or a copy that reads past both the stored cells and the zero-filled
   * first block); `Unsupported` is a result whose arrays the code never
   * sets (1-D horizontal, 2-D vertical). `fields` is `None` where the code
   * leaves `fields` unset.
   */
  datatype CsvData =
    | Failed
    | Undefined
    | Unsupported(dim: nat, fields: Option<seq<Bytes>>, numFields: nat, numDatarows: nat)
    | Spectrum1D(fields: Option<seq<Bytes>>, numFields: nat, numDatarows: nat, wavelengths: seq<real>, intensities: seq<real>)
    | Spectrum2D(numFields: nat, numDatarows: nat, wavelengths: seq<real>, rows: seq<seq<real>>)

  /**
   * The body buffer read from its start: the stored `cells`, then the
   * zeros that remain of the `calloc`ed first block of `zeroed` slots.
   */
  function Memory(cells: seq<real>, zeroed: nat): (m: seq<real>)
    ensures |m| == (if zeroed > |cells| then zeroed else |cells|)
    ensures m[..|cells|] == cells
    ensures forall j :: |cells| <= j < |m| ==> m[j] == 0.0
  {
    if zeroed > |cells| then cells + seq(zeroed - |cells|, _ => 0.0) else cells
  }

  /** Cell `c` of row `r` of the row-major matrix `cells` with `nf` columns (0 for a column that does not exist). */
  function Cell(cells: seq<real>, nf: nat, r: nat, c: nat): real {
    if c < nf && r * nf + c < |cells| then cells[r * nf + c] else 0.0
  }

  /** Row `i` of the row-major matrix `cells` with `nf` columns (empty outside `cells`). */
  function Row(cells: seq<real>, nf: nat, i: nat): seq<real> {
    if i * nf + nf <= |cells| then cells[i * nf..i * nf + nf] else []
  }

  /**
   * `col` is a `calloc`ed array of `len` doubles whose first `nd` entries
   * are column `c` of the data rows and whose other entries are 0.
   */
  ghost predicate IsColumn(col: seq<real>, len: nat, cells: seq<real>, nf: nat, nd: nat, c: nat) {
    && |col| == len && nd <= len
    && (forall r :: 0 <= r < nd ==> col[r] == Cell(cells, nf, r, c))
    && (forall r :: nd <= r < len ==> col[r] == 0.0)
  }

  /**
   * The 1-D layout of the stored `cells` (`num_cols == nf`, buffer
   * capacity `bufferSize`, zero-filled first block of `zeroed` slots):
   * `num_datarows = size / num_cols`; vertically, wavelengths are column 0
   * and intensities column 1 of the data rows. With a single column the
   * intensities are the `num_datarows` slots after the stored cells, which
   * is defined only inside the zero-filled block and then all zeros.
   */
  ghost predicate Is1D(r: CsvData, cells: seq<real>, bufferSize: nat, zeroed: nat, nf: nat, axis: Axis,
                       fields: Option<seq<Bytes>>) {
    if nf == 0 then r == Undefined
    else
      var nd := |cells| / nf;
      if axis == Horizontal then r == Unsupported(1, fields, nf, nd)
      else if 2 * nd > |cells| && 2 * nd > zeroed then r == Undefined
      else
        && r.Spectrum1D? && r.fields == fields && r.numFields == nf && r.numDatarows == nd
        && IsColumn(r.wavelengths, bufferSize, cells, nf, nd, 0)
        && IsColumn(r.intensities, bufferSize, cells, nf, nd, 1)
  }

  /** `num_rows - 1` computed in `unsigned int`. */
  function DataRows2D(numRows: nat): (nd: nat)
    ensures nd < UintRange
    ensures numRows == 0 ==> nd == UintRange - 1
    ensures 0 < numRows <= UintRange ==> nd == numRows - 1
    ensures numRows > 0 ==> nd < numRows
  {
    (numRows + UintRange - 1) % UintRange
  }

  /**
   * The 2-D layout of the stored `cells` after `numRows` record ends, the
   * first record having `nf` fields: horizontally, the wavelengths are row 0 and intensity row `i` is
   * row `i + 1` of the buffer, for `i < num_datarows`, where a row past the
   * stored cells but inside the zero-filled block reads as zeros.
   */
  ghost predicate Is2D(r: CsvData, cells: seq<real>, zeroed: nat, numRows: nat, nf: nat, axis: Axis) {
    var nd := DataRows2D(numRows);
    var mem := Memory(cells, zeroed);
    if axis == Vertical then r == Unsupported(2, None, nf, nd)
    else if (nd + 1) * nf > |mem| then r == Undefined
    else
      && r.Spectrum2D? && r.numFields == nf && r.numDatarows == nd
      && r.wavelengths == Row(mem, nf, 0)
      && |r.rows| == nd && forall i :: 0 <= i < nd ==> r.rows[i] == Row(mem, nf, i + 1)
  }

  lemma DivBound(n: nat, d: nat)
    requires d > 0
    ensures (n / d) * d <= n && n / d <= n
    ensures d == 1 ==> n / d == n
  {
    assert n == (n / d) * d + n % d;
    Transpose.MulAtLeast(d, n / d);
  }

  /** Row `i + 1` ends within the first `(nd + 1) * nf` cells when `i < nd`. */
  lemma RowInRange(i: nat, nd: nat, nf: nat)
    requires i < nd
    ensures (i + 1) * nf + nf <= (nd + 1) * nf
  {
    assert (nd + 1) * nf == (i + 1) * nf + nf + (nd - i - 1) * nf;
  }

  /**
   * After transposing `nd` rows of `nf >= 2` cells, positions `i` and
   * `nd + i` hold cells 0 and 1 of row `i`.
   */
  lemma TransposedColumns(before: seq<real>, cells: seq<real>, nf: nat, nd: nat, i: nat)
    requires nf >= 2 && i < nd && nf * nd <= |cells| <= |before| && 2 * nd <= |cells| && cells == before[..|cells|]
    ensures var t := Transpose.Transposed(before, nf, nd);
      t[i] == Cell(cells, nf, i, 0) && t[nd + i] == Cell(cells, nf, i, 1)
  {
    Transpose.TransposedAt(before, nf, nd, i, 0);
    Transpose.TransposedAt(before, nf, nd, i, 1);
  }

  /** Two of `nf >= 2` columns fit in the matrix. */
  lemma ColumnsFit(nf: nat, nd: nat)
    requires nf >= 2
    ensures 2 * nd <= nf * nd
  {
    assert nf * nd == 2 * nd + (nf - 2) * nd;
  }

  /**
   * Transposing a single column changes nothing: position `i` holds the
   * stored cell `i`, and position `nd + i` a zero of the first block.
   */
  lemma TransposedColumn(before: seq<real>, cells: seq<real>, nd: nat, i: nat)
    requires i < nd && 2 * nd <= |before| && cells == before[..nd] && before[nd + i] == 0.0
    ensures var t := Transpose.Transposed(before, 1, nd);
      t[i] == Cell(cells, 1, i, 0) && t[nd + i] == Cell(cells, 1, i, 1)
  {
    Transpose.TransposeVector(before, 1, nd);
  }

  /**
   * The two `calloc`s and `memcpy`s of the 1-D vertical branch: the first
   * `nd` cells of `data` and the `nd` cells after them, each copied into a
   * zeroed array as long as `data`.
   */
  method CopyColumns(data: array<real>, nd: nat) returns (wavelengths: array<real>, intensities: array<real>)
    requires 2 * nd <= data.Length
    ensures fresh(wavelengths) && fresh(intensities)
    ensures wavelengths.Length == data.Length && intensities.Length == data.Length
    ensures forall i :: 0 <= i < nd ==> wavelengths[i] == data[i] && intensities[i] == data[nd + i]
    ensures forall i :: nd <= i < data.Length ==> wavelengths[i] == 0.0 && intensities[i] == 0.0
  {
    wavelengths := new real[data.Length](_ => 0.0);
    intensities := new real[data.Length](_ => 0.0);
    forall i | 0 <= i < nd {
      wavelengths[i] := data[i];
    }
    forall i | 0 <= i < nd {
      intensities[i] := data[nd + i];
    }
  }

  /**
   * The 1-D branch of `read_csv` on the body buffer `data` holding `size`
   * cells, whose slots from `size` up to `zeroed` are still the zeros of
   * `calloc`: transpose the `num_datarows`-by-`num_fields` matrix in place
   * and copy its first two rows into zeroed arrays of the buffer's
   * capacity. The buffer is not used again afterwards.
   */
  method Layout1D(data: array<real>, size: nat, zeroed: nat, nf: nat, axis: Axis, fields: Option<seq<Bytes>>)
      returns (r: CsvData)
    requires size <= data.Length && zeroed <= data.Length
    requires forall j :: size <= j < zeroed ==> data[j] == 0.0
    modifies data
    ensures Is1D(r, old(data[..size]), data.Length, zeroed, nf, axis, fields)
  {
    if nf == 0 {
      return Undefined;
    }
    var nd := size / nf;
    DivBound(size, nf);
    if axis == Horizontal {
      return Unsupported(1, fields, nf, nd);
    }
    if 2 * nd > size && 2 * nd > zeroed {
      return Undefined;
    }
    r := Vertical1D(data, size, zeroed, nf, nd, fields);
  }

  /** The vertical 1-D layout of `nd` data rows of `nf` cells each. */
  method Vertical1D(data: array<real>, size: nat, zeroed: nat, nf: nat, nd: nat, fields: Option<seq<Bytes>>)
      returns (r: CsvData)
    requires size <= data.Length && zeroed <= data.Length && nf * nd <= size
    requires forall j :: size <= j < zeroed ==> data[j] == 0.0
    requires 2 * nd <= size || 2 * nd <= zeroed
    requires nf == 1 ==> nd == size
    requires nd > 0 ==> nf >= 1
    modifies data
    ensures r.Spectrum1D? && r.fields == fields && r.numFields == nf && r.numDatarows == nd
    ensures IsColumn(r.wavelengths, data.Length, old(data[..size]), nf, nd, 0)
    ensures IsColumn(r.intensities, data.Length, old(data[..size]), nf, nd, 1)
    ensures data[..] == Transpose.Transposed(old(data[..]), nf, nd)
  {
    ghost var cells := data[..size];
    ghost var before := data[..];
    Transpose.MatrixTranspose(data, nf, nd);
    var wavelengths, intensities := CopyColumns(data, nd);
    forall i | 0 <= i < nd
      ensures wavelengths[i] == Cell(cells, nf, i, 0) && intensities[i] == Cell(cells, nf, i, 1)
    {
      if nf == 1 {
        TransposedColumn(before, cells, nd, i);
      } else {
        ColumnsFit(nf, nd);
        TransposedColumns(before, cells, nf, nd, i);
      }
    }
    r := Spectrum1D(fields, nf, nd, wavelengths[..], intensities[..]);
  }

  /** The buffer `s` holding `size` cells and the zeros of its first block reads as `Memory`. */
  lemma BufferIsMemory(s: seq<real>, size: nat, zeroed: nat)
    requires size <= |s| && zeroed <= |s|
    requires forall j :: size <= j < zeroed ==> s[j] == 0.0
    ensures var m := Memory(s[..size], zeroed); m == s[..|m|]
  {
  }

  /** For `i < nd`, row `i + 1` of `mem` is a slice of the buffer `s` that `mem` is a prefix of. */
  lemma RowOf(s: seq<real>, mem: seq<real>, nf: nat, nd: nat, i: nat)
    requires |mem| <= |s| && mem == s[..|mem|] && (nd + 1) * nf <= |mem| && i < nd
    ensures 0 <= (i + 1) * nf <= (i + 1) * nf + nf <= |s|
    ensures Row(mem, nf, i + 1) == s[(i + 1) * nf..(i + 1) * nf + nf]
  {
    RowInRange(i, nd, nf);
  }

  /**
   * The copies of the 2-D horizontal branch: row 0 of `data` as the
   * wavelengths, and row `i + 1` into its own zeroed array for `i < nd`.
   */
  method CopyRows(data: array<real>, nf: nat, nd: nat, ghost mem: seq<real>)
      returns (wavelengths: seq<real>, rows: seq<seq<real>>)
    requires (nd + 1) * nf <= |mem| <= data.Length && mem == data[..|mem|]
    ensures wavelengths == Row(mem, nf, 0)
    ensures |rows| == nd && forall i :: 0 <= i < nd ==> rows[i] == Row(mem, nf, i + 1)
  {
    RowInRange(0, nd + 1, nf);
    wavelengths := data[..nf];
    var buffers := new seq<real>[nd](_ => []);
    for i := 0 to nd
      invariant forall j :: 0 <= j < i ==> buffers[j] == Row(mem, nf, j + 1)
    {
      RowOf(data[..], mem, nf, nd, i);
      buffers[i] := data[(i + 1) * nf..(i + 1) * nf + nf];
    }
    rows := buffers[..];
  }

  /**
   * The 2-D branch of `read_csv` on the body buffer `data` holding `size`
   * cells, whose slots from `size` up to `zeroed` are still the zeros of
   * `calloc`.
   */
  method Layout2D(data: array<real>, size: nat, zeroed: nat, nf: nat, numRows: nat, axis: Axis) returns (r: CsvData)
    requires size <= data.Length && zeroed <= data.Length
    requires forall j :: size <= j < zeroed ==> data[j] == 0.0
    ensures Is2D(r, data[..size], zeroed, numRows, nf, axis)
  {
    var nd := DataRows2D(numRows);
    if axis == Vertical {
      return Unsupported(2, None, nf, nd);
    }
    var readable := if zeroed > size then zeroed else size;
    if (nd + 1) * nf > readable {
      return Undefined;
    }
    BufferIsMemory(data[..], size, zeroed);
    assert data[..][..size] == data[..size];
    var wavelengths, rows := CopyRows(data, nf, nd, Memory(data[..size], zeroed));
    r := Spectrum2D(nf, nd, wavelengths, rows);
  }

  /**
   * A single vertical column of `n` cells whose `2 * n` slots lie inside
   * the zero-filled block: the wavelengths are the cells and every
   * intensity is 0.
   */
  lemma SingleColumn1D(r: CsvData, cells: seq<real>, bufferSize: nat, zeroed: nat, fields: Option<seq<Bytes>>)
    requires Is1D(r, cells, bufferSize, zeroed, 1, Vertical, fields) && 2 * |cells| <= zeroed
    ensures r.Spectrum1D? && r.numDatarows == |cells| && |cells| <= |r.wavelengths|
    ensures r.wavelengths[..|cells|] == cells
    ensures forall i :: 0 <= i < |r.intensities| ==> r.intensities[i] == 0.0
  {
    DivBound(|cells|, 1);
    assert r.Spectrum1D?;
    forall i | 0 <= i < |cells|
      ensures r.wavelengths[i] == cells[i]
    {
      assert r.wavelengths[i] == Cell(cells, 1, i, 0);
    }
  }

  /**
   * With a header, `num_rows - 1` still counts the header row, which the
   * buffer does not hold: when the stored cells are the `numRows - 1`
   * complete data rows, the last intensity row lies past them and is all
   * zeros, while the first data row became the wavelengths.
   */
  lemma HeaderZeroRow(r: CsvData, cells: seq<real>, zeroed: nat, rows: nat, nf: nat)
    requires Is2D(r, cells, zeroed, rows + 1, nf, Horizontal) && r.Spectrum2D?
    requires 1 <= rows < UintRange && |cells| == rows * nf
    ensures r.numDatarows == rows && r.wavelengths == Row(cells, nf, 0)
    ensures r.rows[rows - 1] == seq(nf, _ => 0.0)
  {
    var mem := Memory(cells, zeroed);
    assert r.rows[rows - 1] == Row(mem, nf, rows);
    RowsOfMemory(cells, zeroed, rows, nf);
  }

  /** Row `rows` of the buffer, just past `rows` stored rows, is zeros; row 0 is the first stored row. */
  lemma RowsOfMemory(cells: seq<real>, zeroed: nat, rows: nat, nf: nat)
    requires 1 <= rows && |cells| == rows * nf && (rows + 1) * nf <= |Memory(cells, zeroed)|
    ensures Row(Memory(cells, zeroed), nf, rows) == seq(nf, _ => 0.0)
    ensures Row(Memory(cells, zeroed), nf, 0) == Row(cells, nf, 0)
  {
    var mem := Memory(cells, zeroed);
    assert (rows + 1) * nf == rows * nf + nf;
    assert Row(mem, nf, rows) == mem[|cells|..|cells| + nf];
    Transpose.MulAtLeast(rows, nf);
    assert mem[..nf] == cells[..nf];
  }

  /**
   * The intensity-row count the stored cells hold: every complete row
   * after the wavelength row, so that no row is read past the cells.
   */
  function StoredDataRows2D(size: nat, nf: nat): (nd: nat)
    requires nf > 0
    ensures size >= nf ==> (nd + 1) * nf <= size < (nd + 2) * nf
    ensures size < nf ==> nd == 0
  {
    var rows := size / nf;
    DivBound(size, nf);
    assert size == rows * nf + size % nf;
    if rows > 0 then rows - 1 else 0
  }

  /**
   * Without a header, `num_rows - 1` is the count the stored cells hold;
   * with one it is one more.
   */
  lemma StoredDataRowsAgree(size: nat, nf: nat, numRows: nat, withHeader: bool)
    requires nf > 0 && 2 <= numRows <= UintRange
    requires size == (if withHeader then numRows - 1 else numRows) * nf
    ensures StoredDataRows2D(size, nf) == (if withHeader then DataRows2D(numRows) - 1 else DataRows2D(numRows))
  {
    var rows := if withHeader then numRows - 1 else numRows;
    assert size == (size / nf) * nf + size % nf;
    Transpose.DivisionUnique(rows, 0, size / nf, size % nf, nf);
  }

  /** In a rectangular stream, row `i` of the stored values is the `i`-th data record converted. */
  lemma RowIsRecord(events: seq<Event<Bytes>>, withHeader: bool, strtod: Bytes -> Conversion<real>, i: nat)
    requires Rectangular(events) && i + (if withHeader then 1 else 0) < Ends(events)
    ensures Row(Values(DataCells(events, withHeader), strtod), Width(events), i)
         == Values(Records(events)[i + if withHeader then 1 else 0], strtod)
  {
    DataRecord(events, withHeader, i);
    RowOfValues(DataCells(events, withHeader), Width(events), i, i * Width(events), strtod);
  }

  /** Converting row `i` of the cells, which starts at `lo`, is converting that row. */
  lemma RowOfValues(cells: seq<Bytes>, nf: nat, i: nat, lo: nat, strtod: Bytes -> Conversion<real>)
    requires lo == i * nf && lo + nf <= |cells|
    ensures Row(Values(cells, strtod), nf, i) == Values(cells[lo..lo + nf], strtod)
  {
  }

  /** A row that lies inside the stored cells reads the same from the buffer. */
  lemma StoredRow(cells: seq<real>, zeroed: nat, nf: nat, i: nat)
    requires i * nf + nf <= |cells|
    ensures Row(Memory(cells, zeroed), nf, i) == Row(cells, nf, i)
  {
    var mem := Memory(cells, zeroed);
    assert mem[..|cells|] == cells;
    assert mem[i * nf..i * nf + nf] == mem[..|cells|][i * nf..i * nf + nf];
  }

  /**
   * The 2-D layout by records, for a stream whose records all have the
   * first record's width: the wavelengths are the first data record and
   * intensity row `i` the data record after it. Without a header every
   * intensity row is such a record; with one, the last row is not (see
   * `HeaderZeroRow`).
   */
  lemma Records2D(r: CsvData, events: seq<Event<Bytes>>, withHeader: bool, strtod: Bytes -> Conversion<real>,
                  zeroed: nat)
    requires Rectangular(events)
    requires Is2D(r, Values(DataCells(events, withHeader), strtod), zeroed, Ends(events), Width(events), Horizontal)
    requires r.Spectrum2D?
    ensures var k := if withHeader then 1 else 0;
      k < Ends(events) ==> r.wavelengths == Values(Records(events)[k], strtod)
    ensures var k := if withHeader then 1 else 0;
      forall i :: 0 <= i < r.numDatarows && i + 1 + k < Ends(events) ==>
        r.rows[i] == Values(Records(events)[i + 1 + k], strtod)
    ensures !withHeader && Ends(events) > 0 ==> r.numDatarows < Ends(events)
  {
    var k := if withHeader then 1 else 0;
    var mem := Memory(Values(DataCells(events, withHeader), strtod), zeroed);
    var nf := Width(events);
    assert r.numDatarows == DataRows2D(Ends(events));
    if k < Ends(events) {
      assert r.wavelengths == Row(mem, nf, 0);
      BufferRowIsRecord(events, withHeader, strtod, zeroed, 0);
    }
    forall i | 0 <= i < r.numDatarows && i + 1 + k < Ends(events)
      ensures r.rows[i] == Values(Records(events)[i + 1 + k], strtod)
    {
      assert r.rows[i] == Row(mem, nf, i + 1);
      BufferRowIsRecord(events, withHeader, strtod, zeroed, i + 1);
    }
  }

  /** In a rectangular stream, row `i` of the buffer is the `i`-th data record converted. */
  lemma BufferRowIsRecord(events: seq<Event<Bytes>>, withHeader: bool, strtod: Bytes -> Conversion<real>,
                          zeroed: nat, i: nat)
    requires Rectangular(events) && i + (if withHeader then 1 else 0) < Ends(events)
    ensures Row(Memory(Values(DataCells(events, withHeader), strtod), zeroed), Width(events), i)
         == Values(Records(events)[i + if withHeader then 1 else 0], strtod)
  {
    var cells := Values(DataCells(events, withHeader), strtod);
    var nf := Width(events);
    DataRecord(events, withHeader, i);
    RowIsRecord(events, withHeader, strtod, i);
    StoredRow(cells, zeroed, nf, i);
  }

  /**
   * The vertical 1-D layout by records, for a stream whose records all have
   * the first record's width: entry `j` of the wavelengths is field 0 of
   * the `j`-th data record converted, and entry `j` of the intensities its
   * field 1.
   */
  lemma Records1D(r: CsvData, events: seq<Event<Bytes>>, withHeader: bool, strtod: Bytes -> Conversion<real>,
                  bufferSize: nat, zeroed: nat, fields: Option<seq<Bytes>>)
    requires Rectangular(events)
    requires Is1D(r, Values(DataCells(events, withHeader), strtod), bufferSize, zeroed, Width(events), Vertical, fields)
    requires r.Spectrum1D?
    ensures var k := if withHeader then 1 else 0;
      forall j :: 0 <= j < r.numDatarows && j + k < Ends(events) ==>
        r.wavelengths[j] == strtod(Records(events)[j + k][0]).value
    ensures var k := if withHeader then 1 else 0;
      Width(events) >= 2 ==> forall j :: 0 <= j < r.numDatarows && j + k < Ends(events) ==>
        r.intensities[j] == strtod(Records(events)[j + k][1]).value
  {
    var k := if withHeader then 1 else 0;
    var cells := Values(DataCells(events, withHeader), strtod);
    var nf := Width(events);
    forall j | 0 <= j < r.numDatarows && j + k < Ends(events)
      ensures r.wavelengths[j] == strtod(Records(events)[j + k][0]).value
      ensures nf >= 2 ==> r.intensities[j] == strtod(Records(events)[j + k][1]).value
    {
      CellIsField(events, withHeader, strtod, j, 0);
      if nf >= 2 {
        CellIsField(events, withHeader, strtod, j, 1);
      }
    }
  }

  /** In a rectangular stream, cell `c` of row `j` is field `c` of the `j`-th data record converted. */
  lemma CellIsField(events: seq<Event<Bytes>>, withHeader: bool, strtod: Bytes -> Conversion<real>, j: nat, c: nat)
    requires Rectangular(events) && j + (if withHeader then 1 else 0) < Ends(events) && c < Width(events)
    ensures |Records(events)[j + if withHeader then 1 else 0]| == Width(events)
    ensures Cell(Values(DataCells(events, withHeader), strtod), Width(events), j, c)
         == strtod(Records(events)[j + if withHeader then 1 else 0][c]).value
  {
    var k := if withHeader then 1 else 0;
    var cells := Values(DataCells(events, withHeader), strtod);
    var rec := Records(events)[j + k];
    RowIsRecord(events, withHeader, strtod, j);
    assert |Values(rec, strtod)| == Width(events);
    CellOfRow(cells, Width(events), j, c);
  }

  /** Cell `c` of a complete row is entry `c` of that row. */
  lemma CellOfRow(cells: seq<real>, nf: nat, j: nat, c: nat)
    requires c < nf && |Row(cells, nf, j)| == nf
    ensures Cell(cells, nf, j, c) == Row(cells, nf, j)[c]
  {
  }

  /** The body pass of `read_csv`: libcsv reports `events` to a fresh `struct csv_body_double_double`. */
  method ParseBody(withHeader: bool, events: seq<Event<Bytes>>, strtod: Bytes -> Conversion<real>) returns (body: Body)
    ensures fresh(body) && fresh(body.data) && body.Valid()
    ensures body.State() == Replay(withHeader, events, strtod)
  {
    body := new Body(withHeader, strtod);
    var i := 0;
    while i < |events|
      invariant 0 <= i <= |events|
      invariant body.Valid() && fresh(body.data)
      invariant body.State() == Replay(withHeader, events[..i], strtod)
    {
      assert events[..i + 1] == events[..i] + [events[i]];
      body.Dispatch(events[i], events[..i]);
      i := i + 1;
    }
    assert events[..i] == events;
  }

  /**
   * `read_csv(fp, with_header, axis, dim)`. The file's contents appear as
   * the event streams of its two libcsv passes: `header` (read with
   * `CSV_EMPTY_IS_NULL`, only when a 1-D header is wanted) and `events`;
   * `headerRead` is whether the header pass read its chunks, `initOk` is the outcome of `csv_init`, `parsed` whether every chunk
   * was read and libcsv accepted all of it.
   */
  method ReadCsv(withHeader: bool, axis: Axis, dim: nat, header: seq<Event<Option<Bytes>>>, headerRead: bool,
                 initOk: bool,
                 events: seq<Event<Bytes>>, parsed: bool, strtod: Bytes -> Conversion<real>) returns (r: CsvData)
    ensures var d := DataCells(events, withHeader);
      r.Failed? <==>
        || (withHeader && dim == 1 && (!headerRead || EndRecord !in header || FirstRecord(header) == []))
        || !initOk || !parsed
        || (exists k :: 0 <= k < |d| && BadCell(d[k], strtod))
        || (dim != 1 && dim != 2)
    ensures !r.Failed? && dim == 1 ==>
      var a := Replay(withHeader, events, strtod);
      Is1D(r, Values(DataCells(events, withHeader), strtod), a.bufferSize, a.zeroed,
        Width(events), axis, if withHeader then Some(FirstRecord(header)) else None)
    ensures !r.Failed? && dim == 2 ==>
      Is2D(r, Values(DataCells(events, withHeader), strtod), Replay(withHeader, events, strtod).zeroed,
        Ends(events), Width(events), axis)
  {
    var fields: Option<seq<Bytes>> := None;
    if withHeader && dim == 1 {
      var length;
      fields, length := ReadCsvFields(header, headerRead);
      if fields.None? {
        return Failed;
      }
    }
    if !initOk {
      return Failed;
    }
    var body := ParseBody(withHeader, events, strtod);
    ReplayError(withHeader, events, strtod);
    ReplayStores(withHeader, events, strtod);
    if !parsed || body.error || (dim != 1 && dim != 2) {
      return Failed;
    }
    if dim == 1 {
      r := Layout1D(body.data, body.size, body.zeroed, body.numCols, axis, fields);
    } else {
      r := Layout2D(body.data, body.size, body.zeroed, body.numCols, body.numRows, axis);
    }
  }
}
