/** The second registration of the two reference functions, in
    src/FILE_CACHE.ts, written out with its own inline conditions. The move
    routine evaluates its queries against these. */
module FileCacheRefs {
  import opened Strings
  import opened PosixPath
  import XPath

  function ResolveRelativeReference(referrer: string, target: string): string
  {
    if StartsWith(target, "http://") || StartsWith(target, "https://") || StartsWith(target, "//") then
      target
    else if StartsWith(target, "#") then referrer + target
    else if target == "." then referrer
    else Join2(Dirname(referrer), target)
  }

  function CreateRelativeReference(cwd: string, referrer: string, target: string): string
  {
    if StartsWith(target, "http://") || StartsWith(target, "https://") || StartsWith(target, "//") then
      target
    else Relative(cwd, Dirname(referrer), target)
  }

  /** Both registrations compute the same function. */
  lemma SameAsXPath(cwd: string, referrer: string, target: string)
    ensures ResolveRelativeReference(referrer, target) == XPath.ResolveRelativeReference(referrer, target)
    ensures CreateRelativeReference(cwd, referrer, target) == XPath.CreateRelativeReference(cwd, referrer, target)
  {
  }

  /** Hence the round trip holds for these too. */
  lemma RoundTrip(cwd: string, referrer: string, target: string)
    requires IsKey(referrer) && IsPath(target)
    ensures ResolveRelativeReference(referrer, CreateRelativeReference(cwd, referrer, target)) == target
  {
    SameAsXPath(cwd, referrer, target);
    SameAsXPath(cwd, referrer, CreateRelativeReference(cwd, referrer, target));
    XPath.ResolveCreateRoundTrip(cwd, referrer, target);
  }

  /** A fragment reference resolves to "document#fragment", the form the
      reference auditor splits on '#'. */
  lemma FragmentForm(referrer: string, fragment: string)
    ensures ResolveRelativeReference(referrer, "#" + fragment) == referrer + "#" + fragment
  {
    SameAsXPath("", referrer, "#" + fragment);
    XPath.SameDocumentReferences(referrer, fragment);
  }
}
