/** SQL identifier quoting, shared by the cleanup and index scripts. */
module Identifiers {
  import opened Wrappers
  import opened Text

  /** `sql_ident`: the name in double quotes, each embedded `"` doubled; a SQL reader gets the name back. */
  function SqlIdent(name: string): (r: string)
    ensures |r| == |name| + 2 + Count(name, '"')
    ensures Unquote(r, '"') == Some(name)
  {
    QuoteRoundTrip(name, '"');
    Quote(name, '"')
  }

  /** Distinct names quote to distinct identifiers. */
  lemma SqlIdentInjective(a: string, b: string)
    requires SqlIdent(a) == SqlIdent(b)
    ensures a == b
  {
    assert Unquote(SqlIdent(a), '"') == Some(a);
  }
}
