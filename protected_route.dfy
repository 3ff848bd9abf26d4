/** The route guard in front of every signed-in page. */
module ProtectedRoute {
  import opened Common
  import opened Storage

  /** Either a redirect (with its replace flag) or the guarded children, unchanged. */
  datatype Decision = Redirect(to: string, replace: bool) | RenderChildren

  const SignedOut: Decision := Redirect("/login", true)

  /** The decision on the value read from the "user" entry: a missing entry and the empty
      string redirect to /login, replacing the history entry; any other text admits. */
  function Guard(user: Option<string>): (d: Decision)
    ensures d == RenderChildren <==> user.Some? && user.value != ""
    ensures d != RenderChildren ==> d == SignedOut
  {
    if user == None || user == Some("") then SignedOut else RenderChildren
  }

  /** The guard reads the entry and writes nothing: the method has no modifies clause. */
  method CheckAccess(storage: LocalStorage) returns (d: Decision)
    ensures d == Guard(Lookup(storage.items, UserKey))
  {
    var user := storage.GetItem(UserKey);
    d := Guard(user);
  }

  /** Only presence matters, never the contents of the entry. */
  lemma ContentsIrrelevant(a: string, b: string)
    requires a != "" && b != ""
    ensures Guard(Some(a)) == Guard(Some(b)) == RenderChildren
  {
  }

  /** Even an empty JSON object admits. */
  lemma EmptyObjectAdmits()
    ensures Guard(Some("{}")) == RenderChildren
  {
  }
}
