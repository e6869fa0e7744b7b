/** The shared constants of the ref and version scripts. */
module Constants {
  import opened JsStrings

  /**
   * For each schema directory, in declaration order, the definitions whose
   * `allOf[0].$ref` the ref script rewrites.
   */
  const REF_MAP: seq<(string, seq<string>)> := [
    ("commercial-transaction", ["KeyValueObject", "Company"]),
    ("product-description", ["KeyValueObject", "Measurement"]),
    ("validation", ["KeyValueObject"])
  ]

  /** The server that the version script writes into `$id` values. */
  const DEFAULT_SERVER_URL: string := "https://schemas.s1seven.com/schema-definitions"

  /** No string occurs twice. */
  predicate Distinct(xs: seq<string>) {
    forall i, j :: 0 <= i < j < |xs| ==> xs[i] != xs[j]
  }

  /** The directories of a table, in order. */
  function Directories(table: seq<(string, seq<string>)>): (ds: seq<string>)
    ensures |ds| == |table| && forall i :: 0 <= i < |table| ==> ds[i] == table[i].0
  {
    if table == [] then [] else [table[0].0] + Directories(table[1..])
  }

  /**
   * A version with a leading 'v': the input itself when it already starts
   * with one, otherwise the input behind an added 'v'.
   */
  function AddVToVersionNumber(versionNumber: string): (r: string)
    ensures StartsWith(r, "v")
    ensures StartsWith(versionNumber, "v") ==> r == versionNumber
    ensures !StartsWith(versionNumber, "v") ==> r == "v" + versionNumber
    ensures EndsWith(r, versionNumber)
    ensures |r| == |versionNumber| || |r| == |versionNumber| + 1
  {
    if StartsWith(versionNumber, "v") then versionNumber else "v" + versionNumber
  }

  /** Adding the 'v' twice is adding it once. */
  lemma AddVIdempotent(versionNumber: string)
    ensures AddVToVersionNumber(AddVToVersionNumber(versionNumber)) == AddVToVersionNumber(versionNumber)
  {
  }

  /** The output grows exactly when the input lacks the leading 'v'. */
  lemma AddVLength(versionNumber: string)
    ensures |AddVToVersionNumber(versionNumber)| == |versionNumber| <==> StartsWith(versionNumber, "v")
  {
  }

  /**
   * Three directories, no directory twice, every list non-empty and without
   * repeats, and "KeyValueObject" rewritten in every directory.
   */
  lemma RefMapShape()
    ensures |REF_MAP| == 3
    ensures Distinct(Directories(REF_MAP))
    ensures forall i :: 0 <= i < |REF_MAP| ==> |REF_MAP[i].1| > 0 && Distinct(REF_MAP[i].1)
    ensures forall i :: 0 <= i < |REF_MAP| ==> "KeyValueObject" in REF_MAP[i].1
  {
    assert Directories(REF_MAP) == ["commercial-transaction", "product-description", "validation"];
  }
}
