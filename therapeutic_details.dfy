/**
 * `processData` of the therapeutic details page
 * (frontend/src/pages/TherapeuticDetailsPage.js): it buckets the fields of
 * one therapeutic record and of a list of BLA records into the three display
 * sections, keeping for each listed key a duplicate-free list of values. The
 * definitions are generic over the section table; `SECTIONS` is the table
 * the page uses.
 */
module TherapeuticDetails {
  import opened Wrappers
  import opened Text

  /** A display section and the keys it lists. */
  datatype Section = Section(name: string, keys: seq<string>)

  const SECTIONS: seq<Section> := [
    Section("Approval", [
      "t_id", "audit_status", "inn_name", "furthest_development_stage_reached",
      "fda_approved", "first_fda_approval", "eu_approval", "first_eu_approval",
      "productid", "ndcpackagecode", "marketing_category", "application_number",
      "proprietaryname", "generic_proper_name", "spl_effective_date",
      "established_pharmacologic_class", "initia_us_approval", "company",
      "marketing_date", "ndc", "active_ingredient_unii", "active_moiety_unii"]),
    Section("Manufacture", [
      "manufacturer", "labelled_as_biosimilar", "conjugated", "drug_modifications",
      "expression_system", "labeling_type", "dosage_form", "route_of_administration",
      "active_ingredients", "active_moiety_names"]),
    Section("Sequence", [
      "protein_idc_database_identifier", "protein_description", "protein_modality",
      "species", "backbone", "light_chain", "fc_modifications",
      "sequence_idc_database_identifier", "sequence_verified",
      "target_protein_molecule", "target_uniprot_id", "moa", "progeny_of_prot_id"])
  ]

  /** One entry of `Object.entries(therapeuticData)`: a key and the value's string form, `None` for null or undefined. */
  datatype Field = Field(key: string, value: Option<string>)

  /** A BLA record: a key it lacks is undefined, `None` is null, otherwise the value's string form. */
  type BlaRecord = map<string, Option<string>>

  /** Per section, per key, the list of values shown. */
  type Entries = map<string, seq<string>>
  type Processed = map<string, Entries>

  function Names(table: seq<Section>): (names: seq<string>)
    ensures |names| == |table|
    ensures forall j :: 0 <= j < |table| ==> names[j] == table[j].name
  {
    seq(|table|, j requires 0 <= j < |table| => table[j].name)
  }

  /** `{ Approval: {}, Manufacture: {}, Sequence: {} }` for the page's table. */
  function Empty(table: seq<Section>): Processed {
    map n | n in Names(table) :: map[]
  }

  /** `value?.toString() || 'N/A'`. */
  function TherapeuticText(value: Option<string>): string {
    if value.None? || value.value == "" then "N/A" else value.value
  }

  /** `record[key]?.toString().toLowerCase() || 'N/A'`. */
  function RecordValue(record: BlaRecord, key: string): string {
    if key in record && record[key].Some? && ToLower(record[key].value) != "" then ToLower(record[key].value) else "N/A"
  }

  /** `recordValue && recordValue !== 'N/A'`. */
  predicate Kept(v: string) {
    v != "" && v != "N/A"
  }

  // ---------------------------------------------------------------- the therapeutic pass

  /** One therapeutic entry against one section: if the section lists the key, the key's list becomes `[text]`. */
  function TherEntry(m: Entries, keys: seq<string>, f: Field): Entries {
    if f.key in keys then m[f.key := [TherapeuticText(f.value)]] else m
  }

  /** One therapeutic entry against each section in turn. */
  function TherSections(p: Processed, table: seq<Section>, f: Field): Processed {
    if |table| == 0 then p
    else
      var q := TherSections(p, table[..|table| - 1], f);
      var s := table[|table| - 1];
      if s.name in q then q[s.name := TherEntry(q[s.name], s.keys, f)] else q
  }

  function TherFold(p: Processed, table: seq<Section>, fields: seq<Field>): Processed {
    if |fields| == 0 then p
    else TherSections(TherFold(p, table, fields[..|fields| - 1]), table, fields[|fields| - 1])
  }

  // ---------------------------------------------------------------- the BLA pass

  /** `if (!processed[section][key]) ... = []; if (!includes) push`. */
  function AddValue(m: Entries, key: string, v: string): Entries {
    if key !in m then m[key := [v]]
    else if v in m[key] then m
    else m[key := m[key] + [v]]
  }

  /** One BLA record against the keys of one section. */
  function BlaKeys(m: Entries, record: BlaRecord, keys: seq<string>): Entries {
    if |keys| == 0 then m
    else
      var m' := BlaKeys(m, record, keys[..|keys| - 1]);
      var key := keys[|keys| - 1];
      var v := RecordValue(record, key);
      if Kept(v) then AddValue(m', key, v) else m'
  }

  /** One BLA record against each section in turn. */
  function BlaSections(p: Processed, table: seq<Section>, record: BlaRecord): Processed {
    if |table| == 0 then p
    else
      var q := BlaSections(p, table[..|table| - 1], record);
      var s := table[|table| - 1];
      if s.name in q then q[s.name := BlaKeys(q[s.name], record, s.keys)] else q
  }

  function BlaFold(p: Processed, table: seq<Section>, bla: seq<BlaRecord>): Processed {
    if |bla| == 0 then p
    else BlaSections(BlaFold(p, table, bla[..|bla| - 1]), table, bla[|bla| - 1])
  }

  /** What `processData(therapeuticData, blaData)` returns for a section table. */
  function Process(table: seq<Section>, therapeutic: seq<Field>, bla: seq<BlaRecord>): Processed {
    BlaFold(TherFold(Empty(table), table, therapeutic), table, bla)
  }

  // ---------------------------------------------------------------- the method

  /** `processData` with the page's `SECTIONS`. */
  method ProcessData(therapeutic: seq<Field>, bla: seq<BlaRecord>) returns (processed: Processed)
    ensures processed == Process(SECTIONS, therapeutic, bla)
  {
    processed := map["Approval" := map[], "Manufacture" := map[], "Sequence" := map[]];
    assert processed == Empty(SECTIONS) by {
      assert Names(SECTIONS) == ["Approval", "Manufacture", "Sequence"];
    }
    processed := TherapeuticPass(processed, SECTIONS, therapeutic);
    processed := BlaPass(processed, SECTIONS, bla);
  }

  /** The `forEach` over the therapeutic entries. */
  method TherapeuticPass(start: Processed, table: seq<Section>, therapeutic: seq<Field>) returns (processed: Processed)
    ensures processed == TherFold(start, table, therapeutic)
  {
    processed := start;
    var i := 0;
    while i < |therapeutic|
      invariant 0 <= i <= |therapeutic|
      invariant processed == TherFold(start, table, therapeutic[..i])
    {
      processed := AddTherapeuticEntry(processed, table, therapeutic[i]);
      assert therapeutic[..i + 1][..i] == therapeutic[..i];
      i := i + 1;
    }
    assert therapeutic[..i] == therapeutic;
  }

  /** The `forEach` over the BLA records. */
  method BlaPass(start: Processed, table: seq<Section>, bla: seq<BlaRecord>) returns (processed: Processed)
    ensures processed == BlaFold(start, table, bla)
  {
    processed := start;
    var r := 0;
    while r < |bla|
      invariant 0 <= r <= |bla|
      invariant processed == BlaFold(start, table, bla[..r])
    {
      processed := AddBlaRecord(processed, table, bla[r]);
      assert bla[..r + 1][..r] == bla[..r];
      r := r + 1;
    }
    assert bla[..r] == bla;
  }

  /** The inner `forEach` over the sections for one therapeutic entry. */
  method AddTherapeuticEntry(processed: Processed, table: seq<Section>, f: Field) returns (r: Processed)
    ensures r == TherSections(processed, table, f)
  {
    r := processed;
    var s := 0;
    while s < |table|
      invariant 0 <= s <= |table|
      invariant r == TherSections(processed, table[..s], f)
    {
      var section := table[s];
      if f.key in section.keys && section.name in r {
        r := r[section.name := r[section.name][f.key := [TherapeuticText(f.value)]]];
      }
      assert table[..s + 1][..s] == table[..s];
      s := s + 1;
    }
    assert table[..s] == table;
  }

  /** The `forEach` over the sections for one BLA record. */
  method AddBlaRecord(processed: Processed, table: seq<Section>, record: BlaRecord) returns (r: Processed)
    ensures r == BlaSections(processed, table, record)
  {
    r := processed;
    var s := 0;
    while s < |table|
      invariant 0 <= s <= |table|
      invariant r == BlaSections(processed, table[..s], record)
    {
      var section := table[s];
      if section.name in r {
        var entries := AddBlaSection(r[section.name], section.keys, record);
        r := r[section.name := entries];
      }
      assert table[..s + 1][..s] == table[..s];
      s := s + 1;
    }
    assert table[..s] == table;
  }

  /** The innermost `forEach` over one section's keys for one BLA record. */
  method AddBlaSection(entries: Entries, keys: seq<string>, record: BlaRecord) returns (r: Entries)
    ensures r == BlaKeys(entries, record, keys)
  {
    r := entries;
    var k := 0;
    while k < |keys|
      invariant 0 <= k <= |keys|
      invariant r == BlaKeys(entries, record, keys[..k])
    {
      var key := keys[k];
      var recordValue := RecordValue(record, key);
      ghost var before := r;
      if recordValue != "" && recordValue != "N/A" {
        if key !in r {
          r := r[key := []];
        }
        if recordValue !in r[key] {
          r := r[key := r[key] + [recordValue]];
        }
        if key !in before {
          assert [] + [recordValue] == [recordValue];
          assert r == before[key := [recordValue]];
        }
      }
      assert keys[..k + 1][..k] == keys[..k];
      k := k + 1;
    }
    assert keys[..k] == keys;
  }

  // ---------------------------------------------------------------- properties of one step

  /** `x` is listed under key `k`. */
  predicate Has(m: Entries, k: string, x: string) {
    k in m && x in m[k]
  }

  /** Every list is non-empty and duplicate-free. */
  predicate ListsOk(m: Entries) {
    forall k :: k in m ==> |m[k]| > 0 && NoDups(m[k])
  }

  /** Every key of `m` is kept in `m2`, and its list is a prefix of the list there. */
  predicate Extends(m: Entries, m2: Entries) {
    forall k :: k in m ==> k in m2 && m[k] <= m2[k]
  }

  lemma ExtendsTransitive(m1: Entries, m2: Entries, m3: Entries)
    requires Extends(m1, m2) && Extends(m2, m3)
    ensures Extends(m1, m3)
  {
    forall k | k in m1 ensures k in m3 && m1[k] <= m3[k] {
      assert m1[k] == m2[k][..|m1[k]|];
      assert m2[k] == m3[k][..|m2[k]|];
      assert m1[k] == m3[k][..|m1[k]|];
    }
  }

  /** ASCII lower-casing never produces an upper-case `N`. */
  lemma LowerNeverN(s: string)
    requires |s| > 0
    ensures ToLower(s)[0] != 'N'
  {
  }

  /**
   * A BLA value is kept exactly when the record has the key with a non-null,
   * non-empty value, and then it is that value lower-cased: a stored `"N/A"`
   * becomes `"n/a"` and is kept, because the test compares after lower-casing.
   */
  lemma RecordValueKept(record: BlaRecord, key: string)
    ensures Kept(RecordValue(record, key)) <==> key in record && record[key].Some? && record[key].value != ""
    ensures Kept(RecordValue(record, key)) ==> RecordValue(record, key) == ToLower(record[key].value)
  {
    if key in record && record[key].Some? && record[key].value != "" {
      LowerNeverN(record[key].value);
      assert "N/A"[0] == 'N';
    }
  }

  lemma NotAvailableKept(record: BlaRecord, key: string)
    requires key in record && record[key] == Some("N/A")
    ensures Kept(RecordValue(record, key)) && RecordValue(record, key) == "n/a"
  {
    RecordValueKept(record, key);
  }

  /** Adding a value lists it under its key once, appended at the end, and changes nothing else. */
  lemma AddValueSpec(m: Entries, key: string, v: string)
    ensures forall k :: k in AddValue(m, key, v) <==> k in m || k == key
    ensures forall k, x :: Has(AddValue(m, key, v), k, x) <==> Has(m, k, x) || (k == key && x == v)
    ensures Extends(m, AddValue(m, key, v))
    ensures ListsOk(m) ==> ListsOk(AddValue(m, key, v))
  {
    var r := AddValue(m, key, v);
    if key in m && v !in m[key] {
      assert r[key] == m[key] + [v];
      if ListsOk(m) {
        assert NoDups(r[key]) by {
          forall i, j | 0 <= i < j < |r[key]| ensures r[key][i] != r[key][j] {
            if j == |m[key]| {
              assert r[key][i] == m[key][i];
            } else {
              assert r[key][i] == m[key][i] && r[key][j] == m[key][j];
            }
          }
        }
      }
    }
  }

  /**
   * One BLA record against a section's keys: every listed key whose record
   * value is kept gains that value (if not already listed), nothing is
   * removed or reordered, and lists stay non-empty and duplicate-free.
   */
  lemma {:induction false} BlaKeysSpec(m: Entries, record: BlaRecord, keys: seq<string>)
    ensures forall k :: k in BlaKeys(m, record, keys) <==> k in m || (k in keys && Kept(RecordValue(record, k)))
    ensures forall k, x :: Has(BlaKeys(m, record, keys), k, x) <==>
      Has(m, k, x) || (k in keys && Kept(RecordValue(record, k)) && x == RecordValue(record, k))
    ensures Extends(m, BlaKeys(m, record, keys))
    ensures ListsOk(m) ==> ListsOk(BlaKeys(m, record, keys))
  {
    if |keys| > 0 {
      var p := keys[..|keys| - 1];
      var key := keys[|keys| - 1];
      BlaKeysSpec(m, record, p);
      var m' := BlaKeys(m, record, p);
      assert keys == p + [key];
      if Kept(RecordValue(record, key)) {
        AddValueSpec(m', key, RecordValue(record, key));
        ExtendsTransitive(m, m', AddValue(m', key, RecordValue(record, key)));
      }
    }
  }

  // ---------------------------------------------------------------- one section at a time

  /** No two sections share a name. */
  predicate DistinctNames(table: seq<Section>) {
    forall i, j :: 0 <= i < j < |table| ==> table[i].name != table[j].name
  }

  /** The therapeutic pass as seen by one section with keys `keys`. */
  function TherEntryFold(m: Entries, keys: seq<string>, fields: seq<Field>): Entries {
    if |fields| == 0 then m
    else TherEntry(TherEntryFold(m, keys, fields[..|fields| - 1]), keys, fields[|fields| - 1])
  }

  /** The BLA pass as seen by one section with keys `keys`. */
  function BlaRecordsFold(m: Entries, keys: seq<string>, bla: seq<BlaRecord>): Entries {
    if |bla| == 0 then m
    else BlaKeys(BlaRecordsFold(m, keys, bla[..|bla| - 1]), bla[|bla| - 1], keys)
  }

  /** One therapeutic entry touches each section independently, and only sections of the table. */
  lemma {:induction false} TherSectionsAt(p: Processed, table: seq<Section>, f: Field)
    requires DistinctNames(table)
    ensures forall n :: n in TherSections(p, table, f) <==> n in p
    ensures forall j :: 0 <= j < |table| && table[j].name in p ==>
      TherSections(p, table, f)[table[j].name] == TherEntry(p[table[j].name], table[j].keys, f)
    ensures forall n :: n in p && n !in Names(table) ==> TherSections(p, table, f)[n] == p[n]
  {
    if |table| > 0 {
      var t := table[..|table| - 1];
      var s := table[|table| - 1];
      TherSectionsAt(p, t, f);
      assert s.name !in Names(t) by {
        forall j | 0 <= j < |t| ensures Names(t)[j] != s.name {
          assert t[j] == table[j];
        }
      }
      forall n | n in p && n !in Names(table) ensures n !in Names(t) {
        forall j | 0 <= j < |t| ensures Names(t)[j] != n {
          assert Names(t)[j] == Names(table)[j];
        }
      }
      forall j | 0 <= j < |t| ensures t[j] == table[j] && table[j].name != s.name {
      }
    }
  }

  /** One BLA record touches each section independently, and only sections of the table. */
  lemma {:induction false} BlaSectionsAt(p: Processed, table: seq<Section>, record: BlaRecord)
    requires DistinctNames(table)
    ensures forall n :: n in BlaSections(p, table, record) <==> n in p
    ensures forall j :: 0 <= j < |table| && table[j].name in p ==>
      BlaSections(p, table, record)[table[j].name] == BlaKeys(p[table[j].name], record, table[j].keys)
    ensures forall n :: n in p && n !in Names(table) ==> BlaSections(p, table, record)[n] == p[n]
  {
    if |table| > 0 {
      var t := table[..|table| - 1];
      var s := table[|table| - 1];
      BlaSectionsAt(p, t, record);
      assert s.name !in Names(t) by {
        forall j | 0 <= j < |t| ensures Names(t)[j] != s.name {
          assert t[j] == table[j];
        }
      }
      forall n | n in p && n !in Names(table) ensures n !in Names(t) {
        forall j | 0 <= j < |t| ensures Names(t)[j] != n {
          assert Names(t)[j] == Names(table)[j];
        }
      }
      forall j | 0 <= j < |t| ensures t[j] == table[j] && table[j].name != s.name {
      }
    }
  }

  /** The therapeutic pass, section by section. */
  lemma {:induction false} TherFoldAt(p: Processed, table: seq<Section>, fields: seq<Field>)
    requires DistinctNames(table)
    ensures forall n :: n in TherFold(p, table, fields) <==> n in p
    ensures forall j :: 0 <= j < |table| && table[j].name in p ==>
      TherFold(p, table, fields)[table[j].name] == TherEntryFold(p[table[j].name], table[j].keys, fields)
  {
    if |fields| > 0 {
      TherFoldAt(p, table, fields[..|fields| - 1]);
      TherSectionsAt(TherFold(p, table, fields[..|fields| - 1]), table, fields[|fields| - 1]);
    }
  }

  /** The BLA pass, section by section. */
  lemma {:induction false} BlaFoldAt(p: Processed, table: seq<Section>, bla: seq<BlaRecord>)
    requires DistinctNames(table)
    ensures forall n :: n in BlaFold(p, table, bla) <==> n in p
    ensures forall j :: 0 <= j < |table| && table[j].name in p ==>
      BlaFold(p, table, bla)[table[j].name] == BlaRecordsFold(p[table[j].name], table[j].keys, bla)
  {
    if |bla| > 0 {
      BlaFoldAt(p, table, bla[..|bla| - 1]);
      BlaSectionsAt(BlaFold(p, table, bla[..|bla| - 1]), table, bla[|bla| - 1]);
    }
  }

  /**
   * `processData` returns exactly one object per section, and each is what
   * the two passes make of that section's keys starting from `{}`.
   */
  lemma ProcessAt(table: seq<Section>, therapeutic: seq<Field>, bla: seq<BlaRecord>)
    requires DistinctNames(table)
    ensures forall n :: n in Process(table, therapeutic, bla) <==> n in Names(table)
    ensures forall j :: 0 <= j < |table| ==>
      Process(table, therapeutic, bla)[table[j].name] ==
      BlaRecordsFold(TherEntryFold(map[], table[j].keys, therapeutic), table[j].keys, bla)
  {
    var e := Empty(table);
    TherFoldAt(e, table, therapeutic);
    BlaFoldAt(TherFold(e, table, therapeutic), table, bla);
    forall j | 0 <= j < |table| ensures table[j].name in e && e[table[j].name] == map[] {
      assert Names(table)[j] == table[j].name;
    }
  }

  // ---------------------------------------------------------------- what a section ends up holding

  /** The keys of the therapeutic entries, in order. */
  function KeysOf(fields: seq<Field>): (ks: seq<string>)
    ensures |ks| == |fields|
    ensures forall i :: 0 <= i < |fields| ==> ks[i] == fields[i].key
  {
    if |fields| == 0 then [] else KeysOf(fields[..|fields| - 1]) + [fields[|fields| - 1].key]
  }

  /** The text of the last therapeutic entry with key `k`: a later entry overwrites an earlier one. */
  function LastText(fields: seq<Field>, k: string): (t: string)
    requires k in KeysOf(fields)
    ensures exists i :: (0 <= i < |fields| && fields[i].key == k && t == TherapeuticText(fields[i].value) &&
                         forall j :: i < j < |fields| ==> fields[j].key != k)
  {
    var last := fields[|fields| - 1];
    if last.key == k then TherapeuticText(last.value)
    else
      var p := fields[..|fields| - 1];
      var t := LastText(p, k);
      ghost var i :| (0 <= i < |p| && p[i].key == k && t == TherapeuticText(p[i].value) &&
                      forall j :: i < j < |p| ==> p[j].key != k);
      assert fields[i] == p[i];
      assert forall j :: i < j < |fields| ==> fields[j].key != k by {
        forall j | i < j < |fields| ensures fields[j].key != k {
          if j < |p| { assert fields[j] == p[j]; }
        }
      }
      t
  }

  /** With distinct keys (as object keys are), the last entry with a key is the only one. */
  lemma {:induction false} LastTextOfDistinct(fields: seq<Field>, i: nat)
    requires i < |fields|
    requires forall j :: i < j < |fields| ==> fields[j].key != fields[i].key
    ensures fields[i].key in KeysOf(fields)
    ensures LastText(fields, fields[i].key) == TherapeuticText(fields[i].value)
  {
    assert KeysOf(fields)[i] == fields[i].key;
    if i < |fields| - 1 {
      var p := fields[..|fields| - 1];
      assert p[i] == fields[i];
      LastTextOfDistinct(p, i);
    }
  }

  /**
   * The therapeutic pass on one section: the section gains exactly the
   * listed keys that occur among the entries, each with the one-element list
   * of its last entry's text; other keys are untouched.
   */
  lemma {:induction false} TherEntryFoldSpec(m: Entries, keys: seq<string>, fields: seq<Field>)
    ensures forall k :: k in TherEntryFold(m, keys, fields) <==> k in m || (k in keys && k in KeysOf(fields))
    ensures forall k :: k in keys && k in KeysOf(fields) ==> TherEntryFold(m, keys, fields)[k] == [LastText(fields, k)]
    ensures forall k :: k in m && !(k in keys && k in KeysOf(fields)) ==> TherEntryFold(m, keys, fields)[k] == m[k]
    ensures ListsOk(m) ==> ListsOk(TherEntryFold(m, keys, fields))
  {
    if |fields| > 0 {
      var p := fields[..|fields| - 1];
      var f := fields[|fields| - 1];
      TherEntryFoldSpec(m, keys, p);
      assert KeysOf(fields) == KeysOf(p) + [f.key];
      var r := TherEntryFold(m, keys, fields);
      if ListsOk(m) {
        forall k | k in r ensures |r[k]| > 0 && NoDups(r[k]) {
          if k == f.key && k in keys {
            assert r[k] == [TherapeuticText(f.value)];
          }
        }
      }
    }
  }

  /** Some record supplies a kept value for `k`. */
  predicate Supplied(bla: seq<BlaRecord>, k: string) {
    exists i :: 0 <= i < |bla| && Kept(RecordValue(bla[i], k))
  }

  /** The value each record gives `k`, in record order. */
  function Values(bla: seq<BlaRecord>, k: string): (vs: seq<string>)
    ensures |vs| == |bla|
    ensures forall i :: 0 <= i < |bla| ==> vs[i] == RecordValue(bla[i], k)
  {
    seq(|bla|, i requires 0 <= i < |bla| => RecordValue(bla[i], k))
  }

  /** Some record supplies the kept value `x` for `k`. */
  predicate Supplies(bla: seq<BlaRecord>, k: string, x: string) {
    Kept(x) && x in Values(bla, k)
  }

  lemma SuppliedStep(bla: seq<BlaRecord>, k: string)
    requires |bla| > 0
    ensures Supplied(bla, k) <==> Supplied(bla[..|bla| - 1], k) || Kept(RecordValue(bla[|bla| - 1], k))
  {
    var p, last := bla[..|bla| - 1], |bla| - 1;
    if Supplied(bla, k) {
      var i :| 0 <= i < |bla| && Kept(RecordValue(bla[i], k));
      if i < last {
        assert p[i] == bla[i];
        assert Supplied(p, k);
      }
    }
    if Supplied(p, k) {
      var i :| 0 <= i < |p| && Kept(RecordValue(p[i], k));
      assert p[i] == bla[i];
    }
    if Kept(RecordValue(bla[last], k)) {
      assert Supplied(bla, k);
    }
  }

  lemma SuppliesStep(bla: seq<BlaRecord>, k: string, x: string)
    requires |bla| > 0
    ensures Supplies(bla, k, x) <==>
      Supplies(bla[..|bla| - 1], k, x) || (Kept(RecordValue(bla[|bla| - 1], k)) && x == RecordValue(bla[|bla| - 1], k))
  {
    assert Values(bla, k) == Values(bla[..|bla| - 1], k) + [RecordValue(bla[|bla| - 1], k)];
  }

  /**
   * The BLA pass on one section: a listed key gains every kept value some
   * record gives it and nothing else, no list loses or reorders a value, and
   * lists stay non-empty and duplicate-free.
   */
  lemma {:induction false} BlaRecordsFoldSpec(m: Entries, keys: seq<string>, bla: seq<BlaRecord>)
    ensures forall k :: k in BlaRecordsFold(m, keys, bla) <==> k in m || (k in keys && Supplied(bla, k))
    ensures forall k, x :: Has(BlaRecordsFold(m, keys, bla), k, x) <==> Has(m, k, x) || (k in keys && Supplies(bla, k, x))
    ensures Extends(m, BlaRecordsFold(m, keys, bla))
    ensures ListsOk(m) ==> ListsOk(BlaRecordsFold(m, keys, bla))
  {
    if |bla| > 0 {
      var p := bla[..|bla| - 1];
      var rec := bla[|bla| - 1];
      BlaRecordsFoldSpec(m, keys, p);
      var q := BlaRecordsFold(m, keys, p);
      var r := BlaKeys(q, rec, keys);
      BlaKeysSpec(q, rec, keys);
      ExtendsTransitive(m, q, r);
      forall k ensures k in r <==> k in m || (k in keys && Supplied(bla, k)) {
        SuppliedStep(bla, k);
      }
      forall k, x ensures Has(r, k, x) <==> Has(m, k, x) || (k in keys && Supplies(bla, k, x)) {
        SuppliesStep(bla, k, x);
      }
    }
  }

  /** Values keep the order in which records first supplied them. */
  lemma {:induction false} BlaRecordsFoldPrefix(m: Entries, keys: seq<string>, bla: seq<BlaRecord>, n: nat)
    requires n <= |bla|
    ensures Extends(BlaRecordsFold(m, keys, bla[..n]), BlaRecordsFold(m, keys, bla))
  {
    if n < |bla| {
      var p := bla[..|bla| - 1];
      assert p[..n] == bla[..n];
      BlaRecordsFoldPrefix(m, keys, p, n);
      BlaKeysSpec(BlaRecordsFold(m, keys, p), bla[|bla| - 1], keys);
      ExtendsTransitive(BlaRecordsFold(m, keys, bla[..n]), BlaRecordsFold(m, keys, p), BlaRecordsFold(m, keys, bla));
    } else {
      assert bla[..n] == bla;
      forall k | k in BlaRecordsFold(m, keys, bla) ensures BlaRecordsFold(m, keys, bla)[k] <= BlaRecordsFold(m, keys, bla)[k] {
      }
    }
  }

  // ---------------------------------------------------------------- what processData returns

  /**
   * One section of `processData`'s result: it lists exactly those of its
   * keys that the therapeutic record has or some BLA record gives a kept
   * value; each list is non-empty and duplicate-free; it starts with the
   * therapeutic text when the therapeutic record has the key; and it holds
   * nothing but that text and the kept BLA values.
   */
  lemma ProcessSectionSpec(table: seq<Section>, therapeutic: seq<Field>, bla: seq<BlaRecord>, j: nat)
    requires DistinctNames(table) && j < |table|
    ensures table[j].name in Process(table, therapeutic, bla)
    ensures var e := Process(table, therapeutic, bla)[table[j].name];
      ListsOk(e) &&
      (forall k :: k in e <==> k in table[j].keys && (k in KeysOf(therapeutic) || Supplied(bla, k))) &&
      (forall k :: k in table[j].keys && k in KeysOf(therapeutic) ==> e[k][0] == LastText(therapeutic, k)) &&
      (forall k, x :: Has(e, k, x) <==>
        k in table[j].keys && ((k in KeysOf(therapeutic) && x == LastText(therapeutic, k)) || Supplies(bla, k, x)))
  {
    ProcessAt(table, therapeutic, bla);
    assert Names(table)[j] == table[j].name;
    var keys := table[j].keys;
    var t := TherEntryFold(map[], keys, therapeutic);
    TherEntryFoldSpec(map[], keys, therapeutic);
    BlaRecordsFoldSpec(t, keys, bla);
    var e := BlaRecordsFold(t, keys, bla);
    forall k | k in keys && k in KeysOf(therapeutic) ensures e[k][0] == LastText(therapeutic, k) {
      assert t[k] <= e[k];
    }
  }

  /**
   * BLA values are listed in the order records first supply them: the
   * section after the first `n` records is a prefix-wise part of the final one.
   */
  lemma ProcessSectionOrder(table: seq<Section>, therapeutic: seq<Field>, bla: seq<BlaRecord>, j: nat, n: nat)
    requires DistinctNames(table) && j < |table| && n <= |bla|
    ensures table[j].name in Process(table, therapeutic, bla[..n]) && table[j].name in Process(table, therapeutic, bla)
    ensures Extends(Process(table, therapeutic, bla[..n])[table[j].name], Process(table, therapeutic, bla)[table[j].name])
  {
    ProcessAt(table, therapeutic, bla);
    ProcessAt(table, therapeutic, bla[..n]);
    assert Names(table)[j] == table[j].name;
    BlaRecordsFoldPrefix(TherEntryFold(map[], table[j].keys, therapeutic), table[j].keys, bla, n);
  }

  /** The names of the page's sections, in display order. */
  lemma PageNames()
    ensures Names(SECTIONS) == ["Approval", "Manufacture", "Sequence"]
  {
  }

  /** The page's table: its three sections have distinct names, and the result has exactly those three. */
  lemma PageSections(therapeutic: seq<Field>, bla: seq<BlaRecord>)
    ensures DistinctNames(SECTIONS)
    ensures forall n :: n in Process(SECTIONS, therapeutic, bla) <==> n == "Approval" || n == "Manufacture" || n == "Sequence"
  {
    var names := Names(SECTIONS);
    PageNames();
    forall a, b | 0 <= a < b < |SECTIONS| ensures SECTIONS[a].name != SECTIONS[b].name {
      assert SECTIONS[a].name == names[a] && SECTIONS[b].name == names[b];
    }
    ProcessAt(SECTIONS, therapeutic, bla);
  }
}
