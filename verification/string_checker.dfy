/** The library's non-empty-string guard. */
module StringChecker {
  import opened Outcomes

  /** `isEffectiveString`: a string is effective when it is not null and
      has at least one character; nothing is trimmed, so " " is effective. */
  function IsEffectiveString(s: JavaString): (r: bool)
    ensures r <==> s != None && s != Some("")
  {
    s.Some? && |s.value| > 0
  }

  /** The guard looks at nullness and length only: two references with
      equal nullness and equal length get the same verdict, whatever their
      characters. */
  lemma DependsOnlyOnLength(a: JavaString, b: JavaString)
    requires a.Some? <==> b.Some?
    requires a.Some? ==> |a.value| == |b.value|
    ensures IsEffectiveString(a) <==> IsEffectiveString(b)
  {
  }

  /** null and "" are rejected; a single blank is accepted. */
  lemma Examples()
    ensures !IsEffectiveString(None)
    ensures !IsEffectiveString(Some(""))
    ensures IsEffectiveString(Some(" "))
  {
  }
}
