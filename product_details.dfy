/**
 * The parsing half of `parsePharmClasses` on the product details page
 * (frontend/src/pages/ProductDetailsPage.js): a `", "`-separated list of
 * pharmacologic classes is bucketed by tag into EPC, CS and MoA lists, and
 * the table shows as many rows as the longest list.
 */
module PharmClasses {
  import opened Wrappers
  import opened Text

  const EPC := "[EPC]"
  const CS := "[CS]"
  const MOA := "[MoA]"

  /** The separator the class list is split on. */
  const SEPARATOR := ", "

  /** The three lists `epcValues`, `csValues`, `moaValues`. */
  datatype Classes = Classes(epc: seq<string>, cs: seq<string>, moa: seq<string>)

  /** An entry carrying `tag`, as pushed: the first `" " + tag` removed. */
  function Stripped(entry: string, tag: string): string {
    ReplaceFirst(entry, " " + tag, "")
  }

  /** The values pushed to the list for `tag`, in entry order. */
  function Bucket(entries: seq<string>, tag: string): seq<string> {
    if |entries| == 0 then []
    else
      var b := Bucket(entries[..|entries| - 1], tag);
      var e := entries[|entries| - 1];
      if Contains(e, tag) then b + [Stripped(e, tag)] else b
  }

  /** What `parsePharmClasses` computes before rendering; `None` is its early `null`. */
  function Parse(pharmClasses: Option<string>): (r: Option<Classes>)
    ensures r.None? <==> pharmClasses.None? || pharmClasses.value == "" || pharmClasses.value == "N/A"
    ensures r.Some? ==>
      var n := |Split(pharmClasses.value, SEPARATOR)|;
      |r.value.epc| <= n && |r.value.cs| <= n && |r.value.moa| <= n
  {
    if pharmClasses.None? || pharmClasses.value == "" || pharmClasses.value == "N/A" then None
    else
      var entries := Split(pharmClasses.value, SEPARATOR);
      BucketMembers(entries, EPC);
      BucketMembers(entries, CS);
      BucketMembers(entries, MOA);
      Some(Classes(Bucket(entries, EPC), Bucket(entries, CS), Bucket(entries, MOA)))
  }

  /** `parsePharmClasses` up to the table: the `forEach` pushing into three arrays. */
  method ParsePharmClasses(pharmClasses: Option<string>) returns (r: Option<Classes>)
    ensures r == Parse(pharmClasses)
  {
    if pharmClasses.None? || pharmClasses.value == "" || pharmClasses.value == "N/A" {
      return None;
    }
    var entries := Split(pharmClasses.value, SEPARATOR);
    var epcValues, csValues, moaValues := [], [], [];
    var i := 0;
    while i < |entries|
      invariant 0 <= i <= |entries|
      invariant epcValues == Bucket(entries[..i], EPC)
      invariant csValues == Bucket(entries[..i], CS)
      invariant moaValues == Bucket(entries[..i], MOA)
    {
      var entry := entries[i];
      if Contains(entry, EPC) { epcValues := epcValues + [ReplaceFirst(entry, " " + EPC, "")]; }
      if Contains(entry, CS) { csValues := csValues + [ReplaceFirst(entry, " " + CS, "")]; }
      if Contains(entry, MOA) { moaValues := moaValues + [ReplaceFirst(entry, " " + MOA, "")]; }
      assert entries[..i + 1][..i] == entries[..i];
      i := i + 1;
    }
    assert entries[..i] == entries;
    r := Some(Classes(epcValues, csValues, moaValues));
  }

  // ---------------------------------------------------------------- the rows

  /** One table row: the EPC, CS and MoA cells. */
  datatype Row = Row(epc: string, cs: string, moa: string)

  /** `"—"`, shown in a cell with no value. */
  const NO_VALUE := "\U{2014}"

  /** `Math.max(epcValues.length, csValues.length, moaValues.length)`. */
  function RowCount(c: Classes): (n: nat)
    ensures n >= |c.epc| && n >= |c.cs| && n >= |c.moa|
    ensures n == |c.epc| || n == |c.cs| || n == |c.moa|
  {
    var m := if |c.epc| >= |c.cs| then |c.epc| else |c.cs|;
    if m >= |c.moa| then m else |c.moa|
  }

  /** `values[index] || "—"`. */
  function Cell(values: seq<string>, index: nat): string {
    if index < |values| && values[index] != "" then values[index] else NO_VALUE
  }

  /** The rows of the table, one per index below the row count. */
  function Rows(c: Classes): (rows: seq<Row>)
    ensures |rows| == RowCount(c)
    ensures forall i :: 0 <= i < |rows| ==> rows[i] == Row(Cell(c.epc, i), Cell(c.cs, i), Cell(c.moa, i))
  {
    seq(RowCount(c), i requires 0 <= i => Row(Cell(c.epc, i), Cell(c.cs, i), Cell(c.moa, i)))
  }

  // ---------------------------------------------------------------- properties

  /** Bucketing distributes over concatenation: each list keeps the entries' order. */
  lemma {:induction false} BucketAppend(a: seq<string>, b: seq<string>, tag: string)
    ensures Bucket(a + b, tag) == Bucket(a, tag) + Bucket(b, tag)
    decreases |b|
  {
    if |b| > 0 {
      var b' := b[..|b| - 1];
      assert (a + b)[..|a + b| - 1] == a + b';
      assert (a + b)[|a + b| - 1] == b[|b| - 1];
      BucketAppend(a, b', tag);
    } else {
      assert a + b == a;
    }
  }

  /** One entry adds its stripped text to a list exactly when it carries the tag. */
  lemma BucketSingleton(e: string, tag: string)
    ensures Bucket([e], tag) == if Contains(e, tag) then [Stripped(e, tag)] else []
  {
    assert [e][..0] == [];
  }

  /** The lists hold one value per tagged entry and no other: every tagged entry contributes, at most one value each. */
  lemma {:induction false} BucketMembers(entries: seq<string>, tag: string)
    ensures |Bucket(entries, tag)| <= |entries|
    ensures forall i :: 0 <= i < |entries| && Contains(entries[i], tag) ==> Stripped(entries[i], tag) in Bucket(entries, tag)
    ensures forall x :: x in Bucket(entries, tag) ==> exists i :: 0 <= i < |entries| && Contains(entries[i], tag) && x == Stripped(entries[i], tag)
  {
    if |entries| > 0 {
      var p := entries[..|entries| - 1];
      BucketMembers(p, tag);
      forall i | 0 <= i < |p| ensures p[i] == entries[i] {
      }
    }
  }

  /** An entry carrying none of the three tags is dropped; one carrying several lands in each matching list. */
  lemma EntryRouting(e: string)
    requires e != "" && e != "N/A" && !Contains(e, SEPARATOR)
    ensures Parse(Some(e)) == Some(Classes(Bucket([e], EPC), Bucket([e], CS), Bucket([e], MOA)))
    ensures !Contains(e, EPC) && !Contains(e, CS) && !Contains(e, MOA) ==> Parse(Some(e)) == Some(Classes([], [], []))
    ensures Contains(e, EPC) && Contains(e, CS) ==>
      Parse(Some(e)).value.epc == [Stripped(e, EPC)] && Parse(Some(e)).value.cs == [Stripped(e, CS)]
  {
    assert Split(e, SEPARATOR) == [e];
    BucketSingleton(e, EPC);
    BucketSingleton(e, CS);
    BucketSingleton(e, MOA);
  }

  /** `"Name [EPC]"` is listed as `"Name"` when the name itself has no `[`. */
  lemma TagStripped(name: string, tag: string)
    requires |tag| > 0 && tag[0] == '[' && '[' !in name
    ensures Contains(name + " " + tag, tag)
    ensures Stripped(name + " " + tag, tag) == name
  {
    var s := name + " " + tag;
    var pat := " " + tag;
    assert s == name + pat;
    assert OccursAt(s, tag, |name| + 1) by {
      assert s[|name| + 1..|name| + 1 + |tag|] == tag;
    }
    assert OccursAt(s, pat, |name|) by {
      assert s[|name|..|name| + |pat|] == pat;
    }
    forall k | 0 <= k < |name| ensures !OccursAt(s, pat, k) {
      if k + 1 < |name| {
        assert s[k + 1] == name[k + 1];
      } else {
        assert s[k + 1] == ' ';
      }
    }
    assert Find(s, pat) == Some(|name|);
    assert s[..|name|] + "" + s[|name| + |pat|..] == name;
  }

  /**
   * `"Some Name[EPC]"`, with no space right before the tag, is listed
   * unchanged: `" [EPC]"` occurs nowhere in it.
   */
  lemma UnspacedTagKept(name: string, tag: string)
    requires |tag| > 0 && tag[0] == '[' && ' ' !in tag
    requires '[' !in name && (name == [] || name[|name| - 1] != ' ')
    ensures Contains(name + tag, tag)
    ensures Stripped(name + tag, tag) == name + tag
  {
    var s := name + tag;
    assert OccursAt(s, tag, |name|) by {
      assert s[|name|..|name| + |tag|] == tag;
    }
    var pat := " " + tag;
    forall k | 0 <= k && k + |pat| <= |s| ensures !OccursAt(s, pat, k) {
      if k + 1 < |name| {
        assert s[k..k + |pat|][1] == name[k + 1] != pat[1];
      } else {
        assert s[k..k + |pat|][0] == name[|name| - 1] != pat[0];
      }
    }
    assert Find(s, pat).None?;
  }

  /** The table has a row for every value of the longest list; cells past a list's end, or holding `""`, show `"—"`. */
  lemma RowsShowEveryValue(c: Classes)
    ensures |Rows(c)| >= |c.epc| && |Rows(c)| >= |c.cs| && |Rows(c)| >= |c.moa|
    ensures forall i :: 0 <= i < |c.epc| && c.epc[i] != "" ==> Rows(c)[i].epc == c.epc[i]
    ensures forall i :: 0 <= i < |c.cs| && c.cs[i] != "" ==> Rows(c)[i].cs == c.cs[i]
    ensures forall i :: 0 <= i < |c.moa| && c.moa[i] != "" ==> Rows(c)[i].moa == c.moa[i]
    ensures forall i :: |c.epc| <= i < |Rows(c)| ==> Rows(c)[i].epc == NO_VALUE
    ensures forall i :: |c.cs| <= i < |Rows(c)| ==> Rows(c)[i].cs == NO_VALUE
    ensures forall i :: |c.moa| <= i < |Rows(c)| ==> Rows(c)[i].moa == NO_VALUE
  {
  }
}
