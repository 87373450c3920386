/** PhpExtensionsCheck (identical in both health files): partitions the required
    extensions into loaded and missing and lists the loaded optional ones. */
module Extensions {
  import opened Base
  import opened PhpLang
  import opened Results

  const REQUIRED: seq<string> := ["pdo", "mbstring", "json", "curl"]
  const OPTIONAL: seq<string> := ["redis", "apcu", "intl", "zip", "gd", "xml"]
  const MISSING_PREFIX: string := "Missing required extensions: "

  /** extension_loaded(): a case-insensitive lookup among the names
      get_loaded_extensions() lists. */
  predicate IsLoaded(loaded: seq<string>, name: string) {
    exists i :: 0 <= i < |loaded| && Lower(loaded[i]) == Lower(name)
  }

  /** `a` is `b` with some elements left out, order kept. */
  predicate IsSubsequence(a: seq<string>, b: seq<string>)
    decreases |b|
  {
    if |a| == 0 then true
    else if |b| == 0 then false
    else if a[0] == b[0] then IsSubsequence(a[1..], b[1..])
    else IsSubsequence(a, b[1..])
  }

  /** The names whose loaded-ness is `want`, in list order: the foreach loops that
      append to $requiredLoaded, $requiredMissing and $optionalLoaded. */
  function Select(names: seq<string>, loaded: seq<string>, want: bool): (r: seq<string>)
    ensures forall i :: 0 <= i < |r| ==> r[i] in names && IsLoaded(loaded, r[i]) == want
    ensures forall i :: 0 <= i < |names| && IsLoaded(loaded, names[i]) == want ==> names[i] in r
    ensures IsSubsequence(r, names)
  {
    if |names| == 0 then []
    else if IsLoaded(loaded, names[0]) == want then [names[0]] + Select(names[1..], loaded, want)
    else Select(names[1..], loaded, want)
  }

  /** Every name lands in exactly one of the two lists. */
  lemma {:induction false} SelectPartitions(names: seq<string>, loaded: seq<string>)
    ensures |Select(names, loaded, true)| + |Select(names, loaded, false)| == |names|
  {
    if |names| > 0 {
      SelectPartitions(names[1..], loaded);
    }
  }

  /** performCheck() of PhpExtensionsCheck. */
  function ExtensionsCheck(loaded: seq<string>): (r: Performed)
    ensures r.healthy <==> forall i :: 0 <= i < |REQUIRED| ==> IsLoaded(loaded, REQUIRED[i])
    ensures r.status == (if r.healthy then "healthy" else "critical")
    ensures r.healthy <==> r.error.None?
    ensures !r.healthy ==>
      |MISSING_PREFIX| <= |r.error.value| && r.error.value[..|MISSING_PREFIX|] == MISSING_PREFIX
      && SplitList(r.error.value[|MISSING_PREFIX|..]) == Select(REQUIRED, loaded, false)
    ensures r.details == Some([
      ("total_loaded", JInt(|loaded|)),
      ("required", JObj([
        ("loaded", JList(Strings(Select(REQUIRED, loaded, true)))),
        ("missing", JList(Strings(Select(REQUIRED, loaded, false))))])),
      ("optional_loaded", JList(Strings(Select(OPTIONAL, loaded, true))))])
  {
    var requiredLoaded := Select(REQUIRED, loaded, true);
    var requiredMissing := Select(REQUIRED, loaded, false);
    var optionalLoaded := Select(OPTIONAL, loaded, true);
    var healthy := |requiredMissing| == 0;
    MissingEmptyIff(loaded);
    var details := [
      ("total_loaded", JInt(|loaded|)),
      ("required", JObj([
        ("loaded", JList(Strings(requiredLoaded))),
        ("missing", JList(Strings(requiredMissing)))])),
      ("optional_loaded", JList(Strings(optionalLoaded)))
    ];
    if healthy then
      Performed(true, "healthy", Some(details), None)
    else
      var message := MISSING_PREFIX + Join(requiredMissing, ", ");
      assert message[|MISSING_PREFIX|..] == Join(requiredMissing, ", ");
      MissingListReadsBack(loaded);
      Performed(false, "critical", Some(details), Some(message))
  }

  lemma MissingEmptyIff(loaded: seq<string>)
    ensures |Select(REQUIRED, loaded, false)| == 0 <==> forall i :: 0 <= i < |REQUIRED| ==> IsLoaded(loaded, REQUIRED[i])
  {
    var m := Select(REQUIRED, loaded, false);
    if |m| > 0 {
      assert !IsLoaded(loaded, m[0]);
    }
  }

  /** The missing names contain no comma, so they can be read back from the message. */
  lemma MissingListReadsBack(loaded: seq<string>)
    requires |Select(REQUIRED, loaded, false)| > 0
    ensures SplitList(Join(Select(REQUIRED, loaded, false), ", ")) == Select(REQUIRED, loaded, false)
  {
    var m := Select(REQUIRED, loaded, false);
    RequiredHaveNoComma();
    forall j, i | 0 <= j < |m| && 0 <= i < |m[j]| ensures m[j][i] != ',' {
      assert NoComma(m[j]);
    }
    JoinSplitRoundTrip(m);
  }

  predicate NoComma(s: string) {
    forall i :: 0 <= i < |s| ==> s[i] != ','
  }

  lemma RequiredHaveNoComma()
    ensures forall x :: x in REQUIRED ==> NoComma(x)
  {
    assert NoComma("pdo") && NoComma("mbstring") && NoComma("json") && NoComma("curl");
  }

  function Strings(names: seq<string>): (js: seq<Json>)
    ensures |js| == |names| && forall i :: 0 <= i < |names| ==> js[i] == JStr(names[i])
  {
    if |names| == 0 then [] else [JStr(names[0])] + Strings(names[1..])
  }

  /** extension_loaded() ignores case: "PDO" in the loaded list satisfies "pdo". */
  lemma LoadedIgnoresCase()
    ensures IsLoaded(["PDO"], "pdo")
  {
    assert Lower(["PDO"][0]) == "pdo";
  }
}
