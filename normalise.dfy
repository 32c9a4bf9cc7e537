/**
 * How both scrapers turn an upstream item's nutrient and filter lists into
 * the stored `nutrients` dictionary and `filters` list.
 */
module Normalise {
  import opened Text
  import Dicts
  import Lists

  /** One entry of an item's `nutrients` list. */
  datatype Nutrient = Nutrient(name: string, valueNumeric: string, uom: string)

  /** One entry of an item's `filters` list; `kind` is its `type` field. */
  datatype Filter = Filter(name: string, kind: string)

  /** Python: the stripped text of the name before the first `" ("`. */
  function PyNutrientKey(n: Nutrient): string
  {
    Strip(BeforeParen(n.name))
  }

  /** Python: stripped `valueNumeric` followed by stripped `uom`. */
  function PyNutrientValue(n: Nutrient): string
  {
    Strip(n.valueNumeric) + Strip(n.uom)
  }

  /** `add_item`'s nutrients comprehension. */
  function PyNutrients(ns: seq<Nutrient>): map<string, string>
  {
    Dicts.DictOf(ns, PyNutrientKey, PyNutrientValue)
  }

  /**
   * No entry is dropped: every key of the list is present, and each key
   * holds the value of the LAST entry with that key.
   */
  lemma PyNutrientsLastWins(ns: seq<Nutrient>)
    ensures forall i :: 0 <= i < |ns| ==> PyNutrientKey(ns[i]) in PyNutrients(ns)
    ensures forall k :: k in PyNutrients(ns) ==>
              exists i :: Dicts.LastWithKey(ns, PyNutrientKey, i) && PyNutrientKey(ns[i]) == k
                          && PyNutrients(ns)[k] == PyNutrientValue(ns[i])
  {
    Dicts.DictOfIsDict(ns, PyNutrientKey, PyNutrientValue);
  }

  /** Go keeps a nutrient unless its trimmed value is "0" or "-". */
  predicate GoKeeps(n: Nutrient)
  {
    TrimSpace(n.valueNumeric) != "0" && TrimSpace(n.valueNumeric) != "-"
  }

  /** Go: the trimmed text of the name before the first `" ("`. */
  function GoNutrientKey(n: Nutrient): string
  {
    TrimSpace(BeforeParen(n.name))
  }

  /** Go: trimmed `Value_Numeric` followed by trimmed `UOM`. */
  function GoNutrientValue(n: Nutrient): string
  {
    TrimSpace(n.valueNumeric) + TrimSpace(n.uom)
  }

  /** The nutrients Go keeps, in their order. */
  function Kept(ns: seq<Nutrient>): seq<Nutrient>
  {
    if ns == [] then []
    else
      var n := |ns| - 1;
      Kept(ns[..n]) + (if GoKeeps(ns[n]) then [ns[n]] else [])
  }

  /** Exactly the entries Go keeps survive, and no more than were given. */
  lemma {:induction false} KeptMembers(ns: seq<Nutrient>)
    ensures |Kept(ns)| <= |ns|
    ensures forall x :: x in Kept(ns) <==> x in ns && GoKeeps(x)
  {
    if ns != [] {
      var n := |ns| - 1;
      assert ns == ns[..n] + [ns[n]];
      KeptMembers(ns[..n]);
    }
  }

  lemma KeptSnoc(ns: seq<Nutrient>, x: Nutrient)
    ensures Kept(ns + [x]) == Kept(ns) + (if GoKeeps(x) then [x] else [])
  {
    assert (ns + [x])[..|ns|] == ns;
  }

  /**
   * What `Save`'s nutrient loop builds: the dictionary of the kept entries,
   * each key holding the value of the last kept entry with that key.
   */
  function GoNutrients(ns: seq<Nutrient>): map<string, string>
  {
    Dicts.DictOf(Kept(ns), GoNutrientKey, GoNutrientValue)
  }

  /** The loop's step: a kept entry overwrites its key, a dropped one changes nothing. */
  lemma GoNutrientsStep(ns: seq<Nutrient>, i: nat)
    requires i < |ns|
    ensures GoNutrients(ns[..i + 1])
         == if GoKeeps(ns[i]) then GoNutrients(ns[..i])[GoNutrientKey(ns[i]) := GoNutrientValue(ns[i])]
            else GoNutrients(ns[..i])
  {
    assert ns[..i + 1] == ns[..i] + [ns[i]];
    KeptSnoc(ns[..i], ns[i]);
    if GoKeeps(ns[i]) {
      Dicts.DictOfSnoc(Kept(ns[..i]), ns[i], GoNutrientKey, GoNutrientValue);
    } else {
      assert Kept(ns[..i + 1]) == Kept(ns[..i]);
    }
  }

  /**
   * Every stored key comes from a kept entry, so a key whose entries all
   * have value "0" or "-" is not stored at all.
   */
  lemma GoStoredKeysAreKept(ns: seq<Nutrient>, k: string)
    requires k in GoNutrients(ns)
    ensures exists x :: x in ns && GoKeeps(x) && GoNutrientKey(x) == k && GoNutrients(ns)[k] == GoNutrientValue(x)
  {
    Dicts.DictOfIsDict(Kept(ns), GoNutrientKey, GoNutrientValue);
    KeptMembers(ns);
    var i :| Dicts.LastWithKey(Kept(ns), GoNutrientKey, i) && GoNutrientKey(Kept(ns)[i]) == k
             && GoNutrients(ns)[k] == GoNutrientValue(Kept(ns)[i]);
    assert Kept(ns)[i] in Kept(ns);
  }

  /** A kept entry's key is always stored. */
  lemma GoKeepsKeptKeys(ns: seq<Nutrient>, x: Nutrient)
    requires x in ns && GoKeeps(x)
    ensures GoNutrientKey(x) in GoNutrients(ns)
  {
    Dicts.DictOfIsDict(Kept(ns), GoNutrientKey, GoNutrientValue);
    KeptMembers(ns);
    var i :| 0 <= i < |Kept(ns)| && Kept(ns)[i] == x;
  }

  /** Python lists an entry whose `type` is exactly "label". */
  predicate IsPyLabel(f: Filter)
  {
    f.kind == "label"
  }

  /** Go lists an entry whose trimmed `Type` is "label". */
  predicate IsGoLabel(f: Filter)
  {
    TrimSpace(f.kind) == "label"
  }

  function PyLabelName(f: Filter): string
  {
    Strip(f.name)
  }

  function GoLabelName(f: Filter): string
  {
    TrimSpace(f.name)
  }

  /** `add_item`'s filters: the stripped names of the label entries, in input order. */
  function PyLabels(fs: seq<Filter>): seq<string>
  {
    Lists.Select(fs, IsPyLabel, PyLabelName)
  }

  /** Every label's name is listed, and nothing else is. */
  lemma PyLabelsListed(fs: seq<Filter>, x: string)
    ensures x in PyLabels(fs) <==> exists i :: 0 <= i < |fs| && IsPyLabel(fs[i]) && PyLabelName(fs[i]) == x
  {
    Lists.SelectKeeps(fs, IsPyLabel, PyLabelName);
    if x in PyLabels(fs) {
      Lists.SelectFrom(fs, IsPyLabel, PyLabelName, x);
    }
  }

  /** `Save`'s filters: the trimmed names of the label entries, in input order. */
  function GoLabels(fs: seq<Filter>): seq<string>
  {
    Lists.Select(fs, IsGoLabel, GoLabelName)
  }

  /** Every label's name is listed, and nothing else is. */
  lemma GoLabelsListed(fs: seq<Filter>, x: string)
    ensures x in GoLabels(fs) <==> exists i :: 0 <= i < |fs| && IsGoLabel(fs[i]) && GoLabelName(fs[i]) == x
  {
    Lists.SelectKeeps(fs, IsGoLabel, GoLabelName);
    if x in GoLabels(fs) {
      Lists.SelectFrom(fs, IsGoLabel, GoLabelName, x);
    }
  }

  /** Python's exact comparison accepts no more entries than Go's trimmed one. */
  lemma PythonLabelsAreGoLabels(f: Filter)
    ensures IsPyLabel(f) ==> IsGoLabel(f)
  {
    if f.kind == "label" {
      TrimOfTrimmed("label", Go);
    }
  }
}
