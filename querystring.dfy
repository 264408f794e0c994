/**
 * A reference reader for the query string of a URL: the value it reads for
 * each `key=value` parameter. It splits on `&` and stops at `#`, and
 * does no percent-decoding. It is used to state what the request URLs carry.
 */
module QueryString {
  import opened Wrappers
  import opened Strings

  /** Everything after the first `c` in `s`, or nothing when `s` has no `c`. */
  function AfterFirst(s: string, c: char): (r: string)
    ensures |r| <= |s|
  {
    if s == [] then []
    else if s[0] == c then s[1..]
    else AfterFirst(s[1..], c)
  }

  /** The query component of `url`: after the first `?`, up to the first `#`. */
  function QueryOf(url: string): string
  {
    SplitOn(AfterFirst(url, '?'), '#')[0]
  }

  /** The value of the first `key=` pair among `pairs`. */
  function Lookup(pairs: seq<string>, key: string): Option<string>
  {
    if pairs == [] then None
    else if key + "=" <= pairs[0] then Some(pairs[0][|key| + 1..])
    else Lookup(pairs[1..], key)
  }

  /** The value the URL's query string gives the parameter `key`, if any. */
  function Param(url: string, key: string): Option<string>
  {
    Lookup(SplitOn(QueryOf(url), '&'), key)
  }

  lemma {:induction false} AfterFirstSkips(a: string, c: char, b: string)
    requires c !in a
    ensures AfterFirst(a + [c] + b, c) == b
  {
    if a == [] {
      assert (a + [c] + b)[1..] == b;
    } else {
      var s := a + [c] + b;
      assert s[0] == a[0] && s[1..] == a[1..] + [c] + b;
      AfterFirstSkips(a[1..], c, b);
    }
  }

  /** A pair whose first character differs from the key's is passed over. */
  lemma LookupSkips(pairs: seq<string>, key: string)
    requires pairs != [] && key != [] && pairs[0] != [] && pairs[0][0] != key[0]
    ensures Lookup(pairs, key) == Lookup(pairs[1..], key)
  {
    assert (key + "=")[0] == key[0];
  }

  /** The first pair spelled `key=value` gives `value`. */
  lemma LookupFinds(key: string, value: string, rest: seq<string>)
    ensures Lookup([key + "=" + value] + rest, key) == Some(value)
  {
    var p := key + "=" + value;
    assert key + "=" <= p;
    assert p[|key| + 1..] == value;
  }

  /** The query of `base?query` is `query`, when `base` has no `?` and `query` no `#`. */
  lemma QueryOfPlainUrl(base: string, query: string)
    requires '?' !in base && '#' !in query
    ensures QueryOf(base + "?" + query) == query
  {
    AfterFirstSkips(base, '?', query);
    SplitWithoutSeparator(query, '#');
  }

  /** A `#` after the query starts the fragment, which is not part of the query. */
  lemma QueryOfFragmentUrl(base: string, query: string, fragment: string)
    requires '?' !in base && '#' !in query
    ensures QueryOf(base + "?" + query + "#" + fragment) == query
  {
    assert base + "?" + query + "#" + fragment == base + ['?'] + (query + ['#'] + fragment);
    AfterFirstSkips(base, '?', query + ['#'] + fragment);
    SplitAtFirst(query, '#', fragment);
  }
}
