/** The one piece of text logic in the playlist delegate's painting: the
    author label shows the author's friendly name up to its first '@'. */
module PlaylistDelegate {

  /** Position of the first c in s, or -1 when s has none. */
  function IndexOf(s: string, c: char): (r: int)
    ensures -1 <= r < |s|
    ensures r == -1 <==> c !in s
    ensures r >= 0 ==> s[r] == c && c !in s[..r]
  {
    if s == [] then -1
    else if s[0] == c then 0
    else
      var k := IndexOf(s[1..], c);
      if k == -1 then -1
      else
        assert s[..k + 1] == [s[0]] + s[1..][..k];
        k + 1
  }

  /** The author label for the friendly name `name`: the text before the
      first '@' when there is one, the whole name otherwise. */
  function AuthorLabel(name: string): (shown: string)
    ensures shown <= name
    ensures '@' !in shown
    ensures '@' in name ==> name[|shown|] == '@'
    ensures '@' !in name ==> shown == name
  {
    if '@' in name then name[..IndexOf(name, '@')] else name
  }

  /** A label is its own label: it has no '@' left to cut at. */
  lemma AuthorLabelIdempotent(name: string)
    ensures AuthorLabel(AuthorLabel(name)) == AuthorLabel(name)
  {
  }
}
