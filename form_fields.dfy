/**
 * Collecting the editable fields of a submitted form (app.py, submit_form):
 * every key `analyse_<id>` or `actions_<id>` contributes its value to the
 * entry for `<id>` in `kpi_data`, an insertion-ordered dictionary; all
 * other keys are ignored.
 */
module FormFields {
  import opened Wrappers
  import opened Text

  /** One entry of `kpi_data`: the id text and the fields the form supplied for it. */
  datatype FieldEdit = FieldEdit(id: string, analyse: Option<string>, actionsCorrectives: Option<string>)

  datatype Field = Analyse | ActionsCorrectives

  const AnalysePrefix: string := "analyse_"
  const ActionsPrefix: string := "actions_"

  /** `key.split('_', 1)[1]`: what follows the first underscore. */
  function AfterFirstUnderscore(key: string): string
    requires '_' in key
  {
    key[FirstIndex(key, '_') + 1..]
  }

  /** For both prefixes the id is exactly what follows the prefix. */
  lemma SplitAfterPrefix(key: string, prefix: string)
    requires prefix == AnalysePrefix || prefix == ActionsPrefix
    requires StartsWith(key, prefix)
    ensures '_' in key && AfterFirstUnderscore(key) == key[|prefix|..]
  {
    var head := prefix[..|prefix| - 1];
    assert key == head + key[|prefix| - 1..];
    FirstIndexAfter(head, key[|prefix| - 1..], '_');
    assert key[|prefix| - 1] == '_';
  }

  /** A key carries an analyse (or actions) value for `id` exactly when it is the prefix followed by `id`. */
  lemma KeyNamesId(key: string, prefix: string, id: string)
    requires prefix == AnalysePrefix || prefix == ActionsPrefix
    ensures StartsWith(key, prefix) ==> '_' in key
    ensures (StartsWith(key, prefix) && AfterFirstUnderscore(key) == id) <==> key == prefix + id
  {
    if StartsWith(key, prefix) {
      SplitAfterPrefix(key, prefix);
      assert key == prefix + key[|prefix|..];
    }
    if key == prefix + id {
      assert key[..|prefix|] == prefix;
      SplitAfterPrefix(key, prefix);
    }
  }

  function SetField(e: FieldEdit, f: Field, v: string): FieldEdit {
    match f
    case Analyse => e.(analyse := Some(v))
    case ActionsCorrectives => e.(actionsCorrectives := Some(v))
  }

  /** `kpi_data.setdefault(id, {})[f] = v`: update the entry in place, or append a new one. */
  function Upsert(data: seq<FieldEdit>, id: string, f: Field, v: string): seq<FieldEdit> {
    if data == [] then [SetField(FieldEdit(id, None, None), f, v)]
    else if data[0].id == id then [SetField(data[0], f, v)] + data[1..]
    else [data[0]] + Upsert(data[1..], id, f, v)
  }

  /** What one form item does to `kpi_data`. */
  function Step(data: seq<FieldEdit>, item: (string, string)): seq<FieldEdit> {
    var (key, value) := item;
    if StartsWith(key, AnalysePrefix) then
      SplitAfterPrefix(key, AnalysePrefix);
      Upsert(data, AfterFirstUnderscore(key), Analyse, value)
    else if StartsWith(key, ActionsPrefix) then
      SplitAfterPrefix(key, ActionsPrefix);
      Upsert(data, AfterFirstUnderscore(key), ActionsCorrectives, value)
    else data
  }

  /** `kpi_data` after the loop over the form items, in their order. */
  function Collected(form: seq<(string, string)>): seq<FieldEdit> {
    if form == [] then [] else Step(Collected(form[..|form| - 1]), form[|form| - 1])
  }

  /**
   * The collecting loop of submit_form over `request.form.items()`, which
   * yields each key once (`DistinctKeys`); the fold is defined for any
   * sequence of items.
   */
  method CollectFields(form: seq<(string, string)>) returns (data: seq<FieldEdit>)
    ensures data == Collected(form)
  {
    data := [];
    var i := 0;
    while i < |form|
      invariant 0 <= i <= |form|
      invariant data == Collected(form[..i])
    {
      var (key, value) := form[i];
      if StartsWith(key, AnalysePrefix) {
        SplitAfterPrefix(key, AnalysePrefix);
        data := Upsert(data, AfterFirstUnderscore(key), Analyse, value);
      } else if StartsWith(key, ActionsPrefix) {
        SplitAfterPrefix(key, ActionsPrefix);
        data := Upsert(data, AfterFirstUnderscore(key), ActionsCorrectives, value);
      }
      assert form[..i + 1][..i] == form[..i];
      i := i + 1;
    }
    assert form[..i] == form;
  }

  // ---------------------------------------------------------------------
  // A reference reading of `kpi_data`

  /** The entry for `id`, if any. */
  function Lookup(data: seq<FieldEdit>, id: string): Option<FieldEdit> {
    if data == [] then None else if data[0].id == id then Some(data[0]) else Lookup(data[1..], id)
  }

  /** The value of the last form item whose key is `key`. */
  function LastValue(form: seq<(string, string)>, key: string): Option<string> {
    if form == [] then None
    else if form[|form| - 1].0 == key then Some(form[|form| - 1].1)
    else LastValue(form[..|form| - 1], key)
  }

  /** Werkzeug's `request.form.items()` yields each key once, with its first value. */
  ghost predicate DistinctKeys(form: seq<(string, string)>) {
    forall i, j :: 0 <= i < j < |form| ==> form[i].0 != form[j].0
  }

  /** With each key once, the last value of an item's key is that item's value. */
  lemma {:induction false} LastValueOfItem(form: seq<(string, string)>, i: nat)
    requires DistinctKeys(form) && i < |form|
    ensures LastValue(form, form[i].0) == Some(form[i].1)
  {
    if i < |form| - 1 {
      var prev := form[..|form| - 1];
      assert prev[i] == form[i];
      assert DistinctKeys(prev) by {
        forall a, b | 0 <= a < b < |prev| ensures prev[a].0 != prev[b].0 {
          assert prev[a] == form[a] && prev[b] == form[b];
        }
      }
      LastValueOfItem(prev, i);
    }
  }

  ghost predicate DistinctIds(data: seq<FieldEdit>) {
    forall i, j :: 0 <= i < j < |data| ==> data[i].id != data[j].id
  }

  lemma {:induction false} LookupUpsert(data: seq<FieldEdit>, id: string, f: Field, v: string, other: string)
    ensures Lookup(Upsert(data, id, f, v), other)
         == if other == id then Some(SetField(Lookup(data, id).GetOr(FieldEdit(id, None, None)), f, v))
            else Lookup(data, other)
  {
    if data != [] && data[0].id != id {
      LookupUpsert(data[1..], id, f, v, other);
    }
  }

  lemma {:induction false} LookupHasId(data: seq<FieldEdit>, id: string)
    ensures Lookup(data, id).Some? ==> Lookup(data, id).value.id == id
  {
    if data != [] && data[0].id != id {
      LookupHasId(data[1..], id);
    }
  }

  lemma {:induction false} UpsertKeepsDistinct(data: seq<FieldEdit>, id: string, f: Field, v: string)
    requires DistinctIds(data)
    ensures DistinctIds(Upsert(data, id, f, v))
    ensures forall x :: x in Upsert(data, id, f, v) ==> x.id == id || exists y :: y in data && y.id == x.id
  {
    if data != [] && data[0].id != id {
      var t := Upsert(data[1..], id, f, v);
      assert DistinctIds(data[1..]) by {
        forall i, j | 0 <= i < j < |data[1..]| ensures data[1..][i].id != data[1..][j].id {
          assert data[1..][i] == data[i + 1] && data[1..][j] == data[j + 1];
        }
      }
      UpsertKeepsDistinct(data[1..], id, f, v);
      forall x | x in t ensures x.id != data[0].id {
        if x.id != id {
          var y :| y in data[1..] && y.id == x.id;
          var j :| 0 <= j < |data[1..]| && data[1..][j] == y;
          assert data[j + 1] == y;
        }
      }
      assert forall j :: 0 < j < |[data[0]] + t| ==> ([data[0]] + t)[j] == t[j - 1];
      forall x | x in [data[0]] + t ensures x.id == id || exists y :: y in data && y.id == x.id {
        if x != data[0] {
          assert x in t;
          if x.id != id {
            var y :| y in data[1..] && y.id == x.id;
            assert y in data;
          }
        } else {
          assert data[0] in data;
        }
      }
    } else if data != [] {
      assert forall j :: 0 < j < |data| ==> ([SetField(data[0], f, v)] + data[1..])[j] == data[j];
      forall x | x in [SetField(data[0], f, v)] + data[1..] ensures x.id == id || exists y :: y in data && y.id == x.id {
        if x != SetField(data[0], f, v) {
          assert x in data[1..];
          assert x in data;
        }
      }
    }
  }

  /** No two entries of `kpi_data` share an id. */
  lemma {:induction false} CollectedDistinct(form: seq<(string, string)>)
    ensures DistinctIds(Collected(form))
  {
    if form != [] {
      var prev := form[..|form| - 1];
      var (key, value) := form[|form| - 1];
      CollectedDistinct(prev);
      if StartsWith(key, AnalysePrefix) {
        SplitAfterPrefix(key, AnalysePrefix);
        UpsertKeepsDistinct(Collected(prev), AfterFirstUnderscore(key), Analyse, value);
      } else if StartsWith(key, ActionsPrefix) {
        SplitAfterPrefix(key, ActionsPrefix);
        UpsertKeepsDistinct(Collected(prev), AfterFirstUnderscore(key), ActionsCorrectives, value);
      }
    }
  }

  /**
   * The entry for `id` holds the value of the last `analyse_<id>` item and
   * of the last `actions_<id>` item; there is an entry exactly when the form
   * has at least one of the two. As `request.form.items()` yields each key
   * once, "the last" is the only such item (`LastValueOfItem`).
   */
  lemma {:induction false} CollectedLookup(form: seq<(string, string)>, id: string)
    ensures var a, c := LastValue(form, AnalysePrefix + id), LastValue(form, ActionsPrefix + id);
      Lookup(Collected(form), id) == if a.None? && c.None? then None else Some(FieldEdit(id, a, c))
  {
    if form != [] {
      var prev := form[..|form| - 1];
      var (key, value) := form[|form| - 1];
      CollectedLookup(prev, id);
      KeyNamesId(key, AnalysePrefix, id);
      KeyNamesId(key, ActionsPrefix, id);
      LookupHasId(Collected(prev), id);
      assert AnalysePrefix[1] != ActionsPrefix[1];
      assert !(StartsWith(key, AnalysePrefix) && StartsWith(key, ActionsPrefix)) by {
        if StartsWith(key, AnalysePrefix) {
          assert key[1] == AnalysePrefix[1];
        }
      }
      if StartsWith(key, AnalysePrefix) {
        SplitAfterPrefix(key, AnalysePrefix);
        LookupUpsert(Collected(prev), AfterFirstUnderscore(key), Analyse, value, id);
      } else if StartsWith(key, ActionsPrefix) {
        SplitAfterPrefix(key, ActionsPrefix);
        LookupUpsert(Collected(prev), AfterFirstUnderscore(key), ActionsCorrectives, value, id);
      }
    }
  }

  /** A key of neither kind leaves `kpi_data` as it was. */
  lemma OtherKeysIgnored(data: seq<FieldEdit>, key: string, value: string)
    requires !StartsWith(key, AnalysePrefix) && !StartsWith(key, ActionsPrefix)
    ensures Step(data, (key, value)) == data
  {
  }

  lemma {:induction false} UpsertNonEmpty(data: seq<FieldEdit>, id: string, f: Field, v: string)
    ensures Upsert(data, id, f, v) != []
  {
  }

  /** `kpi_data` is empty, and the answer is "Nothing to Update", exactly when no key has either prefix. */
  lemma {:induction false} CollectedEmpty(form: seq<(string, string)>)
    ensures Collected(form) == []
        <==> forall i :: 0 <= i < |form| ==> !StartsWith(form[i].0, AnalysePrefix) && !StartsWith(form[i].0, ActionsPrefix)
  {
    if form != [] {
      var prev := form[..|form| - 1];
      CollectedEmpty(prev);
      CollectedDistinct(prev);
      assert forall i :: 0 <= i < |prev| ==> prev[i] == form[i];
      var (key, value) := form[|form| - 1];
      if !StartsWith(key, AnalysePrefix) && !StartsWith(key, ActionsPrefix) {
        assert Collected(form) == Collected(prev);
      } else if StartsWith(key, AnalysePrefix) {
        SplitAfterPrefix(key, AnalysePrefix);
        UpsertNonEmpty(Collected(prev), AfterFirstUnderscore(key), Analyse, value);
      } else {
        SplitAfterPrefix(key, ActionsPrefix);
        UpsertNonEmpty(Collected(prev), AfterFirstUnderscore(key), ActionsCorrectives, value);
      }
    }
  }

  /** An item `analyse_<id>` or `actions_<id>` sets that field of the entry for `id`. */
  lemma StepNamed(data: seq<FieldEdit>, id: string, v: string)
    ensures Step(data, (AnalysePrefix + id, v)) == Upsert(data, id, Analyse, v)
    ensures Step(data, (ActionsPrefix + id, v)) == Upsert(data, id, ActionsCorrectives, v)
  {
    KeyNamesId(AnalysePrefix + id, AnalysePrefix, id);
    KeyNamesId(ActionsPrefix + id, ActionsPrefix, id);
    assert !StartsWith(ActionsPrefix + id, AnalysePrefix) by {
      assert (ActionsPrefix + id)[1] != AnalysePrefix[1];
    }
  }
}
