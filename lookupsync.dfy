/**
 * The `emis_sync_lookups` management command: the fifteen lookup lists of the
 * EMIS core collection upserted into their local tables, keyed by code, with
 * a count of rows added and rows updated per table.
 */
module LookupSync {
  import opened Wrappers

  /** The lookup tables, in the order the command syncs them. */
  datatype Lookup =
    | Schools | Levels | JobTitles | WarehouseYears | Subjects | TeacherQuals | MaritalStatuses | Islands
    | TeacherStatuses | EducationLevels | TeacherLinkTypes | Genders | PdFocuses | PdFormats | PdTypes

  const LookupOrder: seq<Lookup> := [Schools, Levels, JobTitles, WarehouseYears, Subjects, TeacherQuals,
    MaritalStatuses, Islands, TeacherStatuses, EducationLevels, TeacherLinkTypes, Genders, PdFocuses,
    PdFormats, PdTypes]

  function LookupIndex(e: Lookup): (r: nat)
    ensures r < |LookupOrder| && LookupOrder[r] == e
  {
    match e
    case Schools => 0
    case Levels => 1
    case JobTitles => 2
    case WarehouseYears => 3
    case Subjects => 4
    case TeacherQuals => 5
    case MaritalStatuses => 6
    case Islands => 7
    case TeacherStatuses => 8
    case EducationLevels => 9
    case TeacherLinkTypes => 10
    case Genders => 11
    case PdFocuses => 12
    case PdFormats => 13
    case PdTypes => 14
  }

  /** The payload key each table is read from. */
  function PayloadKey(e: Lookup): string {
    match e
    case Schools => "schoolCodes"
    case Levels => "levels"
    case JobTitles => "teacherRoles"
    case WarehouseYears => "warehouseYears"
    case Subjects => "subjects"
    case TeacherQuals => "teacherQuals"
    case MaritalStatuses => "maritalStatus"
    case Islands => "islands"
    case TeacherStatuses => "teacherRegStatus"
    case EducationLevels => "educationLevels"
    case TeacherLinkTypes => "teacherLinkTypes"
    case Genders => "gender"
    case PdFocuses => "teacherPdFocuses"
    case PdFormats => "teacherPdFormats"
    case PdTypes => "teacherPdTypes"
  }

  /** A "C" value as the JSON carries it: text or a whole number. */
  datatype Code = CodeText(text: string) | CodeNumber(n: int)

  /** An item of a lookup list: its "C", "N" and "FormattedYear" entries, each possibly missing. */
  datatype Item = Item(code: Option<Code>, name: Option<string>, formattedYear: Option<string>)

  /** A local lookup row (for schools, `title` holds the school name). */
  datatype Row = Row(title: string, active: bool)

  function DigitChar(d: nat): char
    requires d < 10
  {
    "0123456789"[d]
  }

  function NatDigits(n: nat): (r: string)
    ensures r != []
    decreases n
  {
    if n < 10 then [DigitChar(n)] else NatDigits(n / 10) + [DigitChar(n % 10)]
  }

  /** Python's `str(code)`. */
  function CodeString(c: Code): string {
    match c
    case CodeText(s) => s
    case CodeNumber(n) => if n < 0 then "-" + NatDigits(-n) else NatDigits(n)
  }

  /** An item is synced only when its "C" is present and truthy (not "" and not 0). */
  predicate Coded(item: Item) {
    item.code.Some? && item.code.value != CodeText("") && item.code.value != CodeNumber(0)
  }

  function Key(item: Item): (r: string)
    requires Coded(item)
    ensures r != ""
  {
    CodeString(item.code.value)
  }

  /** The label written: "N" (or "FormattedYear" for years) when truthy, else "" for schools and the code for the rest. */
  function LabelFor(e: Lookup, item: Item): (r: string)
    requires Coded(item)
    ensures e != Schools ==> r != ""
  {
    var given := if e == WarehouseYears then item.formattedYear else item.name;
    if given.Some? && given.value != "" then given.value
    else if e == Schools then ""
    else Key(item)
  }

  /** `update_or_create` for one item: the row under its code gets the label and is made active. */
  function Upsert(rows: map<string, Row>, e: Lookup, item: Item): map<string, Row> {
    if Coded(item) then rows[Key(item) := Row(LabelFor(e, item), true)] else rows
  }

  /** The table after the items have been upserted in order. */
  function Apply(rows: map<string, Row>, e: Lookup, items: seq<Item>): map<string, Row>
    decreases |items|
  {
    if items == [] then rows
    else Upsert(Apply(rows, e, items[..|items| - 1]), e, items[|items| - 1])
  }

  /** How many of the upserts created their row. */
  function Created(rows: map<string, Row>, e: Lookup, items: seq<Item>): nat
    decreases |items|
  {
    if items == [] then 0
    else
      var init := items[..|items| - 1];
      var last := items[|items| - 1];
      Created(rows, e, init) + (if Coded(last) && Key(last) !in Apply(rows, e, init) then 1 else 0)
  }

  function CodedCount(items: seq<Item>): (r: nat)
    ensures r <= |items|
    decreases |items|
  {
    if items == [] then 0
    else CodedCount(items[..|items| - 1]) + (if Coded(items[|items| - 1]) then 1 else 0)
  }

  /** The codes the payload names. */
  function Codes(items: seq<Item>): set<string>
    decreases |items|
  {
    if items == [] then {}
    else Codes(items[..|items| - 1]) + (if Coded(items[|items| - 1]) then {Key(items[|items| - 1])} else {})
  }

  /** The label the last item with code `k` carries. */
  function LastLabel(e: Lookup, items: seq<Item>, k: string): string
    requires k in Codes(items)
    decreases |items|
  {
    var last := items[|items| - 1];
    if Coded(last) && Key(last) == k then LabelFor(e, last) else LastLabel(e, items[..|items| - 1], k)
  }

  /**
   * What a sync leaves behind: each payload code has an active row with the
   * label of its last item, and every other row is exactly as it was.
   */
  lemma {:induction false} ApplyRows(rows: map<string, Row>, e: Lookup, items: seq<Item>, k: string)
    ensures k in Apply(rows, e, items) <==> k in rows || k in Codes(items)
    ensures k in Codes(items) ==> Apply(rows, e, items)[k] == Row(LastLabel(e, items, k), true)
    ensures k !in Codes(items) && k in rows ==> Apply(rows, e, items)[k] == rows[k]
    decreases |items|
  {
    if items != [] {
      ApplyRows(rows, e, items[..|items| - 1], k);
    }
  }

  /** The rows created are exactly the table's new codes. */
  lemma {:induction false} CreatedAreNewCodes(rows: map<string, Row>, e: Lookup, items: seq<Item>)
    ensures |Apply(rows, e, items).Keys| == |rows.Keys| + Created(rows, e, items)
    ensures rows.Keys <= Apply(rows, e, items).Keys
    decreases |items|
  {
    if items != [] {
      var init := items[..|items| - 1];
      var last := items[|items| - 1];
      CreatedAreNewCodes(rows, e, init);
      var before := Apply(rows, e, init);
      assert Apply(rows, e, items) == Upsert(before, e, last);
      if Coded(last) {
        KeysAfterWrite(before, Key(last), Row(LabelFor(e, last), true));
      }
    }
  }

  /** Running the sync again on the same payload changes nothing and creates nothing. */
  lemma SyncIsIdempotent(rows: map<string, Row>, e: Lookup, items: seq<Item>)
    ensures Apply(Apply(rows, e, items), e, items) == Apply(rows, e, items)
    ensures Created(Apply(rows, e, items), e, items) == 0
  {
    var once := Apply(rows, e, items);
    var twice := Apply(once, e, items);
    forall k
      ensures k in twice <==> k in once
      ensures k in twice ==> twice[k] == once[k]
    {
      ApplyRows(rows, e, items, k);
      ApplyRows(once, e, items, k);
    }
    assert twice == once;
    CreatedAreNewCodes(once, e, items);
  }

  /** One more item extends the table, the created count and the coded count by that item's upsert. */
  lemma PrefixStep(rows: map<string, Row>, e: Lookup, items: seq<Item>, i: nat)
    requires i < |items|
    ensures Apply(rows, e, items[..i + 1]) == Upsert(Apply(rows, e, items[..i]), e, items[i])
    ensures Created(rows, e, items[..i + 1]) == Created(rows, e, items[..i])
      + (if Coded(items[i]) && Key(items[i]) !in Apply(rows, e, items[..i]) then 1 else 0)
    ensures CodedCount(items[..i + 1]) == CodedCount(items[..i]) + (if Coded(items[i]) then 1 else 0)
  {
    assert items[..i + 1][..i] == items[..i];
    assert items[..i + 1][i] == items[i];
  }

  /** Writing a key adds it to the keys, and adds one to their number when it is new. */
  lemma KeysAfterWrite(m: map<string, Row>, k: string, v: Row)
    ensures m[k := v].Keys == m.Keys + {k}
    ensures |m[k := v].Keys| == |m.Keys| + (if k in m then 0 else 1)
  {
    if k in m {
      assert m.Keys + {k} == m.Keys;
    }
  }

  /** The command's database: one table per lookup. */
  class LookupStore {
    var tables: map<Lookup, map<string, Row>>

    ghost predicate Valid()
      reads this
    {
      forall e: Lookup :: e in tables
    }

    constructor (tables: map<Lookup, map<string, Row>>)
      requires forall e: Lookup :: e in tables
      ensures Valid() && this.tables == tables
    {
      this.tables := tables;
    }

    /** One table's loop: upsert every coded item, counting rows added and rows updated. */
    method SyncTable(e: Lookup, items: seq<Item>) returns (added: nat, updated: nat)
      requires Valid()
      modifies this
      ensures Valid()
      ensures tables == old(tables)[e := Apply(old(tables)[e], e, items)]
      ensures added == Created(old(tables)[e], e, items)
      ensures added + updated == CodedCount(items)
    {
      added, updated := 0, 0;
      var rows := tables[e];
      ghost var start := rows;
      var i := 0;
      assert items[..0] == [];
      while i < |items|
        invariant 0 <= i <= |items|
        invariant tables == old(tables)[e := rows]
        invariant rows == Apply(start, e, items[..i])
        invariant added == Created(start, e, items[..i])
        invariant added + updated == CodedCount(items[..i])
      {
        var item := items[i];
        PrefixStep(start, e, items, i);
        if Coded(item) {
          var code := Key(item);
          if code in rows {
            updated := updated + 1;
          } else {
            added := added + 1;
          }
          rows := rows[code := Row(LabelFor(e, item), true)];
          tables := tables[e := rows];
        }
        i := i + 1;
      }
      assert items[..i] == items;
    }

    /**
     * `handle`: every table synced from its payload list (a missing list is
     * empty), inside one transaction; `counts[e]` is (added, updated).
     */
    method SyncAll(payload: map<string, seq<Item>>) returns (counts: map<Lookup, (nat, nat)>)
      requires Valid()
      modifies this
      ensures Valid()
      ensures forall e: Lookup :: Synced(old(tables), tables, counts, payload, e)
    {
      counts := map[];
      var k := 0;
      while k < |LookupOrder|
        invariant 0 <= k <= |LookupOrder|
        invariant Valid()
        invariant forall e: Lookup :: LookupIndex(e) >= k ==> tables[e] == old(tables)[e]
        invariant forall e: Lookup :: LookupIndex(e) < k ==> Synced(old(tables), tables, counts, payload, e)
      {
        var e := LookupOrder[k];
        assert LookupIndex(e) == k;
        ghost var before := tables;
        ghost var countsBefore := counts;
        var added, updated := SyncTable(e, ItemsOf(payload, e));
        counts := counts[e := (added, updated)];
        forall c: Lookup
          ensures LookupIndex(c) >= k + 1 ==> tables[c] == old(tables)[c]
          ensures LookupIndex(c) < k + 1 ==> Synced(old(tables), tables, counts, payload, c)
        {
          if c != e {
            assert tables[c] == before[c];
            assert LookupIndex(c) != k;
            if LookupIndex(c) < k {
              assert Synced(old(tables), before, countsBefore, payload, c);
            }
          }
        }
        k := k + 1;
      }
    }
  }

  /** Table `e` holds its synced rows and `counts[e]` its (added, updated) pair. */
  ghost predicate Synced(before: map<Lookup, map<string, Row>>, after: map<Lookup, map<string, Row>>,
                         counts: map<Lookup, (nat, nat)>, payload: map<string, seq<Item>>, e: Lookup)
  {
    e in before && e in after && e in counts
    && after[e] == Apply(before[e], e, ItemsOf(payload, e))
    && counts[e].0 == Created(before[e], e, ItemsOf(payload, e))
    && counts[e].0 + counts[e].1 == CodedCount(ItemsOf(payload, e))
  }

  /** `payload.get(key, [])`. */
  function ItemsOf(payload: map<string, seq<Item>>, e: Lookup): seq<Item> {
    if PayloadKey(e) in payload then payload[PayloadKey(e)] else []
  }
}
