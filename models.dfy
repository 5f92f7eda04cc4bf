/**
 * The `url_map` table: one `URLMap` row per short link, with the column
 * constraints the model declares (primary-key `id`, `original` of at most
 * 2048 characters, `short` of at most 16 characters and unique, neither null),
 * and its two projections `to_dict` and `__repr__`.
 */
module Models {
  import opened Wrappers
  import opened Text

  const MaxOriginalLength: nat := 2048
  const MaxShortLength: nat := 16
  /** How many characters of `original` the textual representation shows. */
  const ReprOriginalWidth: nat := 60

  /** One row. Null columns cannot be expressed: `original` and `short` are always strings. */
  datatype URLMap = URLMap(id: int, original: string, short: string)

  /** The `String(2048)` and `String(16)` column sizes. */
  predicate FitsColumns(m: URLMap) {
    |m.original| <= MaxOriginalLength && |m.short| <= MaxShortLength
  }

  /** The table, keyed by the unique column `short`. */
  type Table = map<string, URLMap>

  /** The table invariant: each row sits under its own `short`, fits its columns, and ids are distinct. */
  predicate ValidTable(t: Table): (b: bool)
    ensures b ==> forall s :: s in t ==> |s| <= MaxShortLength
  {
    (forall s :: s in t ==> t[s].short == s && FitsColumns(t[s])) &&
    (forall s1, s2 :: s1 in t && s2 in t && s1 != s2 ==> t[s1].id != t[s2].id)
  }

  predicate IdInUse(t: Table, id: int) {
    exists s :: s in t && t[s].id == id
  }

  datatype Violation = ColumnTooLong | DuplicateShort | DuplicateId

  /**
   * Adding a row under the table's constraints. The store admits a row exactly
   * when it takes a new `short` and the grown table still satisfies the invariant.
   */
  function Insert(t: Table, m: URLMap): (r: Result<Table, Violation>)
    requires ValidTable(t)
    ensures r.Success? <==> m.short !in t && ValidTable(t[m.short := m])
    ensures r.Success? ==> r.value == t[m.short := m] && |r.value| == |t| + 1
    ensures r == Failure(DuplicateShort) <==> FitsColumns(m) && m.short in t
  {
    if !FitsColumns(m) then
      assert m.short in t[m.short := m] && t[m.short := m][m.short] == m;
      Failure(ColumnTooLong)
    else if m.short in t then Failure(DuplicateShort)
    else if IdInUse(t, m.id) then
      var s :| s in t && t[s].id == m.id;
      assert t[m.short := m][s].id == t[m.short := m][m.short].id;
      Failure(DuplicateId)
    else Success(t[m.short := m])
  }

  /** `URLMap.query.filter_by(short=s).first()`: the row whose `short` is `s`, if any. */
  function FindByShort(t: Table, s: string): (r: Option<URLMap>)
    requires ValidTable(t)
    ensures r.Some? <==> s in t
    ensures r.Some? ==> r.value in t.Values && r.value.short == s
  {
    if s in t then Some(t[s]) else None
  }

  /** No two rows of a valid table share a `short`. */
  lemma UniqueShort(t: Table, a: URLMap, b: URLMap)
    requires ValidTable(t) && a in t.Values && b in t.Values
    ensures a.short == b.short ==> a == b
  {
  }

  /** Distinct rows of a valid table have distinct ids. */
  lemma UniqueId(t: Table, a: URLMap, b: URLMap)
    requires ValidTable(t) && a in t.Values && b in t.Values
    ensures a != b ==> a.id != b.id
  {
  }

  /** Every row of a valid table fits the column sizes. */
  lemma RowsFitColumns(t: Table, m: URLMap)
    requires ValidTable(t) && m in t.Values
    ensures |m.short| <= MaxShortLength && |m.original| <= MaxOriginalLength
  {
  }

  /** `to_dict()`: exactly the keys `url` and `short_link`. */
  function ToDict(m: URLMap): (d: map<string, string>)
    ensures d.Keys == {"url", "short_link"}
    ensures d["url"] == m.original && d["short_link"] == m.short
  {
    map["url" := m.original, "short_link" := m.short]
  }

  /** The dictionary determines `original` and `short` and says nothing about `id`. */
  lemma ToDictInjective(a: URLMap, b: URLMap)
    ensures ToDict(a) == ToDict(b) <==> a.original == b.original && a.short == b.short
  {
  }

  const ReprHead: string := "<URLMap short="
  const ReprMiddle: string := " original="

  /** `__repr__()`: the full `short` and at most the first 60 characters of `original`. */
  function Repr(m: URLMap): (r: string)
    ensures |r| == |ReprHead| + |m.short| + |ReprMiddle| + |Truncate(m.original, ReprOriginalWidth)| + 1
    ensures |r| <= |ReprHead| + |m.short| + |ReprMiddle| + ReprOriginalWidth + 1
    ensures r[..|ReprHead|] == ReprHead && r[|r| - 1] == '>'
    ensures r[|ReprHead|..|ReprHead| + |m.short|] == m.short
    ensures r[|ReprHead| + |m.short|..|ReprHead| + |m.short| + |ReprMiddle|] == ReprMiddle
    ensures r[|ReprHead| + |m.short| + |ReprMiddle|..|r| - 1] <= m.original
    ensures |m.original| <= ReprOriginalWidth ==> r[|ReprHead| + |m.short| + |ReprMiddle|..|r| - 1] == m.original
  {
    ReprHead + m.short + ReprMiddle + Truncate(m.original, ReprOriginalWidth) + ">"
  }

  /** The character of the representation at offset `k` past the head. */
  lemma ReprAt(m: URLMap, k: nat)
    ensures k < |m.short| ==> Repr(m)[|ReprHead| + k] == m.short[k] && m.short[k] in m.short
    ensures k == |m.short| ==> Repr(m)[|ReprHead| + k] == ' '
  {
  }

  /** The representation shows `short` unambiguously when `short` has no space (alphanumeric codes never do). */
  lemma ReprDeterminesShort(a: URLMap, b: URLMap)
    requires ' ' !in a.short && ' ' !in b.short
    requires Repr(a) == Repr(b)
    ensures a.short == b.short
  {
    // A shorter code would put the space that opens " original=" where the longer one has a character.
    ReprAt(a, |a.short|);
    ReprAt(a, |b.short|);
    ReprAt(b, |a.short|);
    ReprAt(b, |b.short|);
  }
}
