/**
 * Resolution of a GET target to the path that is opened, and the extension
 * used to classify it.
 */
module Resource {
  import opened Wrappers
  import opened CStrings

  /** The document appended to a target that names a directory. */
  const DefaultDocument: string := "index.html"

  /** The prefix put in front of every target (the document root is the working directory). */
  const Root: string := "./"

  /** A non-empty target ending in `/` gets the default document appended. */
  function WithDefaultDocument(target: string): (t: string)
    requires |target| > 0
    ensures target <= t
    ensures t[|t| - 1] != '/'
    ensures t == target || t == target + DefaultDocument
  {
    if target[|target| - 1] == '/' then target + DefaultDocument else target
  }

  /** The path handed to `open`. */
  function ResourcePath(target: string): (path: string)
    requires |target| > 0
    ensures target[|target| - 1] == '/' ==> path == Root + target + DefaultDocument
    ensures target[|target| - 1] != '/' ==> path == Root + target
  {
    Root + WithDefaultDocument(target)
  }

  /** The text after the first `.` of `t`, or None when `t` has no `.`. */
  function Extension(t: string): (e: Option<string>)
    ensures e.None? <==> '.' !in t
    ensures e.Some? ==> exists k :: 0 <= k < |t| && t[k] == '.' && '.' !in t[..k] && e.value == t[k + 1..]
  {
    match IndexOf(t, '.')
    case None => None
    case Some(k) => Some(t[k + 1..])
  }

  /**
   * The default document is appended exactly once: a target that already
   * had it appended is left alone, and only a target ending in `/` changes.
   */
  lemma {:induction false} DefaultDocumentOnce(target: string)
    requires |target| > 0
    ensures WithDefaultDocument(WithDefaultDocument(target)) == WithDefaultDocument(target)
    ensures WithDefaultDocument(target) != target <==> target[|target| - 1] == '/'
    ensures target[|target| - 1] == '/' ==>
      WithDefaultDocument(target) == target + DefaultDocument
  {
    var t := WithDefaultDocument(target);
    if target[|target| - 1] == '/' {
      assert t[|t| - 1] == 'l';
      assert |t| > |target|;
    }
  }

  /**
   * Splitting at the first dot inverts joining with a dot: the extension of
   * `name + "." + ext` is all of `ext`, further dots included.
   */
  lemma {:induction false} ExtensionAfterFirstDot(name: string, ext: string)
    requires '.' !in name
    ensures Extension(name + "." + ext) == Some(ext)
  {
    var t := name + "." + ext;
    assert t[|name|] == '.';
    var e := Extension(t);
    var k :| 0 <= k < |t| && t[k] == '.' && '.' !in t[..k] && e.value == t[k + 1..];
    assert k == |name|;
  }
}
