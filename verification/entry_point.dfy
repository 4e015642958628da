/** The one pure step of loading an entry point: splitting the reference
    `module:attribute` at its colon. Importing the module and reading the
    attribute are outside the model. */
module EntryPoint {
  import opened Results

  /** The position of the first ':' in `s`, if any. */
  function IndexOfColon(s: string): (r: Option<nat>)
    ensures r.None? <==> ':' !in s
    ensures r.Some? ==> r.value < |s| && s[r.value] == ':' && ':' !in s[..r.value]
    decreases |s|
  {
    if |s| == 0 then
      None
    else if s[0] == ':' then
      Some(0)
    else
      match IndexOfColon(s[1..])
      case None => None
      case Some(i) =>
        assert s[..i + 1] == [s[0]] + s[1..][..i];
        Some(i + 1)
  }

  /** How many times `c` occurs in `s`. */
  function Occurrences(s: string, c: char): (r: nat)
    ensures r == 0 <==> c !in s
    decreases |s|
  {
    if |s| == 0 then 0 else (if s[0] == c then 1 else 0) + Occurrences(s[1..], c)
  }

  lemma {:induction false} OccurrencesConcat(a: string, b: string, c: char)
    ensures Occurrences(a + b, c) == Occurrences(a, c) + Occurrences(b, c)
    decreases |a|
  {
    if |a| > 0 {
      assert (a + b)[1..] == a[1..] + b;
      OccurrencesConcat(a[1..], b, c);
    } else {
      assert a + b == b;
    }
  }

  /** Unpacking the pieces of the entry point split at ':' into a module
      name and an attribute name. The unpacking succeeds exactly when there
      are two pieces, that is when there is exactly one colon; the pieces
      are what lies before and after it. */
  function SplitEntryPoint(ep: string): (r: Result<(string, string)>)
    ensures r.Ok? <==> Occurrences(ep, ':') == 1
    ensures r.Err? ==> r.error == MalformedEntryPoint(ep)
    ensures r.Ok? ==> ep == r.value.0 + ":" + r.value.1
    ensures r.Ok? ==> ':' !in r.value.0 && ':' !in r.value.1
  {
    match IndexOfColon(ep)
    case None =>
      Err(MalformedEntryPoint(ep))
    case Some(i) =>
      var before, after := ep[..i], ep[i + 1..];
      assert ep == before + [':'] + after;
      assert Occurrences(ep, ':') == Occurrences(before, ':') + 1 + Occurrences(after, ':') by {
        OccurrencesConcat(before + [':'], after, ':');
        OccurrencesConcat(before, [':'], ':');
      }
      if ':' in after then
        Err(MalformedEntryPoint(ep))
      else
        Ok((before, after))
  }

  /** Splitting undoes joining a colon-free module and attribute with ':'. */
  lemma SplitJoin(moduleName: string, attrName: string)
    requires ':' !in moduleName && ':' !in attrName
    ensures SplitEntryPoint(moduleName + ":" + attrName) == Ok((moduleName, attrName))
  {
    var ep := moduleName + ":" + attrName;
    var m := |moduleName|;
    assert ep[..m] == moduleName;
    assert ep[m] == ':';
    assert ep[m + 1..] == attrName;
    OccurrencesConcat(moduleName + ":", attrName, ':');
    OccurrencesConcat(moduleName, ":", ':');
    var i := IndexOfColon(ep).value;
    assert forall j :: 0 <= j < m ==> ep[j] == moduleName[j];
  }
}
