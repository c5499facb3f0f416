/** The rewrite of the `DATABASE_URL` setting (app/database.py) before an
    engine is built from it: a `postgres://` scheme becomes
    `postgresql://`, then `sslmode=require` is appended unless an
    `sslmode=` parameter is already present.  `None` stands for an unset
    environment variable. */
module Database {
  import opened Http
  import opened Strings

  const OldScheme := "postgres://"
  const NewScheme := "postgresql://"
  const SslParam := "sslmode="
  const SslRequire := "sslmode=require"

  /** A set, non-empty URL (Python truthiness). */
  predicate Present(url: Option<string>) {
    url.Some? && url.value != ""
  }

  /** Step one.  The string starts with the old scheme, so its first
      occurrence, the one `replace(..., 1)` rewrites, is the prefix. */
  function RewriteScheme(url: Option<string>): (r: Option<string>)
    ensures r.Some? <==> url.Some?
    ensures Present(url) && StartsWith(url.value, OldScheme) ==>
              StartsWith(r.value, NewScheme) && r.value[|NewScheme|..] == url.value[|OldScheme|..]
    ensures !(Present(url) && StartsWith(url.value, OldScheme)) ==> r == url
    ensures Present(r) ==> !StartsWith(r.value, OldScheme) || r == url
  {
    if Present(url) && StartsWith(url.value, OldScheme) then
      var r := NewScheme + url.value[|OldScheme|..];
      assert r[8] == 'q' != OldScheme[8];
      Some(r)
    else url
  }

  /** Step two. */
  function AddSslMode(url: Option<string>): (r: Option<string>)
    ensures !Present(url) ==> r == url
    ensures Present(url) && Contains(url.value, SslParam) ==> r == url
    ensures Present(url) && !Contains(url.value, SslParam) ==>
              r == Some(url.value + [if Contains(url.value, "?") then '&' else '?'] + SslRequire)
    ensures Present(url) ==> Present(r) && Contains(r.value, SslParam)
  {
    if Present(url) && !Contains(url.value, SslParam) then
      var sep := if Contains(url.value, "?") then "&" else "?";
      var r := url.value + sep + SslRequire;
      assert r == (url.value + sep) + SslRequire;
      assert Contains(SslRequire, SslParam) by { assert OccursAt(SslRequire, SslParam, 0); }
      ContainsAfterPrefix(url.value + sep, SslRequire, SslParam);
      Some(r)
    else url
  }

  function NormaliseUrl(url: Option<string>): Option<string> {
    AddSslMode(RewriteScheme(url))
  }

  /** Appending `?...` or `&...` cannot make a URL start with `postgres://`. */
  lemma AppendKeepsScheme(s: string, sep: char, tail: string)
    requires sep == '?' || sep == '&'
    requires !StartsWith(s, OldScheme)
    ensures !StartsWith(s + [sep] + tail, OldScheme)
  {
    var t := s + [sep] + tail;
    if |s| >= |OldScheme| {
      assert t[..|OldScheme|] == s[..|OldScheme|];
    } else {
      assert t[|s|] == sep != OldScheme[|s|];
    }
  }

  /** Normalising a normalised URL changes nothing. */
  lemma NormaliseIdempotent(url: Option<string>)
    ensures NormaliseUrl(NormaliseUrl(url)) == NormaliseUrl(url)
  {
    var s1 := RewriteScheme(url);
    var n := AddSslMode(s1);
    if Present(url) {
      assert Present(s1);
      if StartsWith(url.value, OldScheme) {
        assert s1.value[8] == s1.value[..|NewScheme|][8] == 'q';
        if n != s1 {
          var sep := if Contains(s1.value, "?") then '&' else '?';
          assert n.value == s1.value + ([sep] + SslRequire);
          assert n.value[8] == s1.value[8];
        }
        assert n.value[8] == 'q' != OldScheme[8];
        assert !StartsWith(n.value, OldScheme);
      } else if n != s1 {
        var sep := if Contains(s1.value, "?") then '&' else '?';
        assert n.value == s1.value + [sep] + SslRequire;
        AppendKeepsScheme(s1.value, sep, SslRequire);
      }
      assert RewriteScheme(n) == n;
    }
  }
}
