/**
 * The string helpers of the `URL` extension: the query-parameter subscript,
 * `isRemote`, `removingFragment`, and the size accessor over the file
 * attributes. Foundation's parsers (`URLComponents(string:)`, `URL.query`,
 * `URL.fragment`, `URL(string:)`) and `FileManager` are not modelled: their
 * results are inputs.
 */
module UrlHelpers {
  import opened Wrappers
  import opened Xattr

  // ---------------------------------------------------------------------
  // subscript(queryParam:)

  /** A `URLQueryItem`: a name and an optional value (`?flag` has none). */
  datatype QueryItem = QueryItem(name: string, value: Option<string>)

  /** What `URLComponents(string:)` gives the subscript: its `queryItems`, `nil` without a query. */
  datatype UrlComponents = UrlComponents(queryItems: Option<seq<QueryItem>>)

  /** Item `i` is the first one named `key`. */
  ghost predicate IsFirstMatch(items: seq<QueryItem>, key: string, i: int) {
    && 0 <= i < |items|
    && items[i].name == key
    && forall j :: 0 <= j < i ==> items[j].name != key
  }

  /** `items.first(where: { $0.name == key })`. */
  function FirstNamed(items: seq<QueryItem>, key: string): (r: Option<QueryItem>)
    ensures forall i :: IsFirstMatch(items, key, i) ==> r == Some(items[i])
    ensures (forall i :: 0 <= i < |items| ==> items[i].name != key) ==> r == None
  {
    if items == [] then None
    else if items[0].name == key then Some(items[0])
    else
      var r := FirstNamed(items[1..], key);
      assert forall i :: IsFirstMatch(items, key, i) ==> i > 0 && IsFirstMatch(items[1..], key, i - 1);
      r
  }

  /**
   * `self[queryParam: key]`: the value of the first query item named `key`.
   * `nil` when the string does not parse, when it has no query, when no item
   * has that name, and when the first such item has no value (a later item
   * of the same name is not consulted).
   */
  function QueryParam(components: Option<UrlComponents>, key: string): (r: Option<string>)
    ensures components.None? || components.value.queryItems.None? ==> r == None
    ensures components.Some? && components.value.queryItems.Some? ==>
              var items := components.value.queryItems.value;
              && (forall i :: IsFirstMatch(items, key, i) ==> r == items[i].value)
              && ((forall i :: 0 <= i < |items| ==> items[i].name != key) ==> r == None)
  {
    match components
    case None => None
    case Some(c) =>
      match c.queryItems
      case None => None
      case Some(items) =>
        match FirstNamed(items, key)
        case None => None
        case Some(item) => item.value
  }

  /** Each thing the subscript returns is the value of an item named `key`, the first one. */
  lemma QueryParamIsFirstMatchValue(items: seq<QueryItem>, key: string)
    requires QueryParam(Some(UrlComponents(Some(items))), key).Some?
    ensures exists i :: IsFirstMatch(items, key, i) && items[i].value == QueryParam(Some(UrlComponents(Some(items))), key)
  {
    var k :| 0 <= k < |items| && items[k].name == key;
    FirstMatchExists(items, key, k);
  }

  /** When some item is named `key`, a first one is. */
  lemma {:induction false} FirstMatchExists(items: seq<QueryItem>, key: string, k: int)
    requires 0 <= k < |items| && items[k].name == key
    ensures exists i :: IsFirstMatch(items, key, i)
    decreases k
  {
    if exists j :: 0 <= j < k && items[j].name == key {
      var j :| 0 <= j < k && items[j].name == key;
      FirstMatchExists(items, key, j);
    } else {
      assert IsFirstMatch(items, key, k);
    }
  }

  /** The example of the source's comment, with `title=blah&txt=body`. */
  lemma QueryParamExample()
    ensures var c := Some(UrlComponents(Some([QueryItem("title", Some("blah")), QueryItem("txt", Some("body"))])));
            QueryParam(c, "title") == Some("blah") && QueryParam(c, "missing") == None
  {
    var items := [QueryItem("title", Some("blah")), QueryItem("txt", Some("body"))];
    assert IsFirstMatch(items, "title", 0);
    assert items[0].name != "missing" && items[1].name != "missing";
  }

  // ---------------------------------------------------------------------
  // isRemote()

  /** `s.starts(with: prefix)`, compared element by element. */
  function StartsWith(s: string, prefix: string): (r: bool)
    ensures r <==> prefix <= s
  {
    if prefix == [] then true
    else if s == [] then false
    else
      var r := s[0] == prefix[0] && StartsWith(s[1..], prefix[1..]);
      assert prefix <= s <==> s[0] == prefix[0] && prefix[1..] <= s[1..];
      r
  }

  /** `isRemote()`: the absolute string begins with `http://` or with `https://`, letter case included. */
  function IsRemote(absoluteString: string): (r: bool)
    ensures r <==> "http://" <= absoluteString || "https://" <= absoluteString
  {
    StartsWith(absoluteString, "http://") || StartsWith(absoluteString, "https://")
  }

  /** An upper-case scheme is not remote, nor is a file-system path. */
  lemma IsRemoteIsCaseSensitive(rest: string)
    ensures !IsRemote("HTTP://" + rest) && !IsRemote("HTTPS://" + rest)
    ensures IsRemote("http://" + rest) && IsRemote("https://" + rest)
    ensures !IsRemote("/" + rest)
  {
    assert ("HTTP://" + rest)[0] == 'H';
    assert ("HTTPS://" + rest)[0] == 'H';
    assert ("/" + rest)[0] == '/';
    assert ("http://" + rest)[..7] == "http://";
    assert ("https://" + rest)[..8] == "https://";
  }

  // ---------------------------------------------------------------------
  // removingFragment()

  /** A `URL` as the helpers see it: its `absoluteString` and what Foundation parses as its query and fragment. */
  datatype Url = Url(absoluteString: string, query: Option<string>, fragment: Option<string>)

  /**
   * `s.replacingOccurrences(of: pattern, with: "")`: the occurrences of
   * `pattern`, found left to right without overlap, are deleted; the text
   * that results is not searched again.
   */
  function RemoveAll(s: string, pattern: string): (r: string)
    ensures |r| <= |s|
    ensures pattern == [] ==> r == s
  {
    if s == [] then []
    else if pattern != [] && pattern <= s then RemoveAll(s[|pattern|..], pattern)
    else [s[0]] + RemoveAll(s[1..], pattern)
  }

  /** No occurrence of `pattern` in `s` starts before index `n`. */
  ghost predicate NoOccurrenceBefore(s: string, pattern: string, n: int) {
    forall i :: 0 <= i < n && i <= |s| ==> !(pattern <= s[i..])
  }

  /** A prefix in which no occurrence of the pattern starts is kept as it is. */
  lemma {:induction false} RemoveAllKeepsPrefix(a: string, b: string, pattern: string)
    requires pattern != [] && NoOccurrenceBefore(a + b, pattern, |a|)
    ensures RemoveAll(a + b, pattern) == a + RemoveAll(b, pattern)
  {
    if a != [] {
      var s := a + b;
      assert s[0..] == s;
      assert s[0] == a[0] && !(pattern <= s);
      assert s[1..] == a[1..] + b;
      forall i | 0 <= i < |a[1..]| && i <= |s[1..]|
        ensures !(pattern <= (a[1..] + b)[i..])
      {
        assert (a[1..] + b)[i..] == s[i + 1..];
      }
      RemoveAllKeepsPrefix(a[1..], b, pattern);
      assert [a[0]] + a[1..] == a;
    } else {
      assert a + b == b;
    }
  }

  /** Text in which the pattern does not occur is kept as it is. */
  lemma RemoveAllNoOccurrence(s: string, pattern: string)
    requires pattern != [] && NoOccurrenceBefore(s, pattern, |s|)
    ensures RemoveAll(s, pattern) == s
  {
    assert s + [] == s;
    RemoveAllKeepsPrefix(s, [], pattern);
  }

  /** The pattern cannot start where its first character does not occur. */
  lemma FirstCharAbsent(a: string, b: string, pattern: string)
    requires pattern != [] && pattern[0] !in a
    ensures NoOccurrenceBefore(a + b, pattern, |a|)
  {
    forall i | 0 <= i < |a| && i <= |a + b|
      ensures !(pattern <= (a + b)[i..])
    {
      assert (a + b)[i..][0] == a[i];
    }
  }

  /** Text in which the pattern's first character never occurs is kept as it is. */
  lemma RemoveAllAbsent(s: string, pattern: string)
    requires pattern != [] && pattern[0] !in s
    ensures RemoveAll(s, pattern) == s
  {
    assert s + [] == s;
    FirstCharAbsent(s, [], pattern);
    RemoveAllNoOccurrence(s, pattern);
  }

  /** Text shorter than the pattern is kept as it is. */
  lemma {:induction false} RemoveAllShorter(s: string, pattern: string)
    requires |s| < |pattern|
    ensures RemoveAll(s, pattern) == s
  {
    if s != [] {
      RemoveAllShorter(s[1..], pattern);
      assert [s[0]] + s[1..] == s;
    }
  }

  /**
   * When no occurrence starts inside `a`, the one right after `a` is the
   * leftmost: it is deleted, `a` is kept and removal goes on behind it.
   */
  lemma RemoveAllAfter(a: string, pattern: string, b: string)
    requires pattern != [] && NoOccurrenceBefore(a + pattern + b, pattern, |a|)
    ensures RemoveAll(a + pattern + b, pattern) == a + RemoveAll(b, pattern)
  {
    assert a + pattern + b == a + (pattern + b);
    RemoveAllKeepsPrefix(a, pattern + b, pattern);
    assert (pattern + b)[|pattern|..] == b;
  }

  /** The string `removingFragment` hands to `URL(string:)`: the query's occurrences removed, then the fragment's. */
  function RemovedString(url: Url): (s: string)
    ensures |s| <= |url.absoluteString|
    ensures url.query.None? && url.fragment.None? ==> s == url.absoluteString
  {
    var afterQuery := if url.query.Some? then RemoveAll(url.absoluteString, "?" + url.query.value) else url.absoluteString;
    if url.fragment.Some? then RemoveAll(afterQuery, "#" + url.fragment.value) else afterQuery
  }

  /**
   * `removingFragment()`: deletes every `?query`, then every `#fragment`,
   * from the absolute string, and parses the rest with `parse` (standing for
   * `URL(string:)`); when that fails, the URL itself.
   */
  method RemovingFragment(url: Url, parse: string -> Option<Url>) returns (r: Url)
    ensures parse(RemovedString(url)).Some? ==> r == parse(RemovedString(url)).value
    ensures parse(RemovedString(url)).None? ==> r == url
  {
    var s := url.absoluteString;
    if url.query.Some? {
      s := RemoveAll(s, "?" + url.query.value);
    }
    if url.fragment.Some? {
      s := RemoveAll(s, "#" + url.fragment.value);
    }
    match parse(s)
    case Some(u) => r := u;
    case None => r := url;
  }

  /** Without a query and a fragment the string is left as it is. */
  lemma RemovedStringWithoutComponents(s: string)
    ensures RemovedString(Url(s, None, None)) == s
  {
  }

  /**
   * On `base?query#fragment`, where `?` and `#` do not occur in the base and
   * `?query` does not occur in `#fragment`, both parts are removed and the
   * base is left. The query and the fragment may hold any other text.
   */
  lemma RemovedStringStripsBoth(base: string, query: string, fragment: string)
    requires '?' !in base && '#' !in base
    requires NoOccurrenceBefore("#" + fragment, "?" + query, |"#" + fragment|)
    ensures RemovedString(Url(base + "?" + query + "#" + fragment, Some(query), Some(fragment))) == base
  {
    var q, f := "?" + query, "#" + fragment;
    assert base + "?" + query + "#" + fragment == base + q + f;
    FirstCharAbsent(base, q + f, q);
    assert base + (q + f) == base + q + f;
    RemoveAllAfter(base, q, f);
    RemoveAllNoOccurrence(f, q);
    FirstCharAbsent(base, f + [], f);
    assert base + f == base + f + [] == base + (f + []);
    RemoveAllAfter(base, f, []);
  }

  /** On `base?query` the query is removed. */
  lemma RemovedStringStripsQuery(base: string, query: string)
    requires '?' !in base
    ensures RemovedString(Url(base + "?" + query, Some(query), None)) == base
  {
    assert base + "?" + query == base + ("?" + query) + [] == base + (("?" + query) + []);
    FirstCharAbsent(base, ("?" + query) + [], "?" + query);
    RemoveAllAfter(base, "?" + query, []);
  }

  /** On `base#fragment` the fragment is removed. */
  lemma RemovedStringStripsFragment(base: string, fragment: string)
    requires '#' !in base
    ensures RemovedString(Url(base + "#" + fragment, None, Some(fragment))) == base
  {
    assert base + "#" + fragment == base + ("#" + fragment) + [] == base + (("#" + fragment) + []);
    FirstCharAbsent(base, ("#" + fragment) + [], "#" + fragment);
    RemoveAllAfter(base, "#" + fragment, []);
  }

  /** The `http://h?a#b` example: both parts go. */
  lemma RemovedStringExample()
    ensures RemovedString(Url("http://h?a#b", Some("a"), Some("b"))) == "http://h"
  {
    var base := "http://h";
    assert '?' !in base && '#' !in base;
    var q, f := "?" + "a", "#" + "b";
    assert f[0..][0] == '#' && f[1..][0] == 'b';
    assert NoOccurrenceBefore(f, q, |f|);
    RemovedStringStripsBoth(base, "a", "b");
    assert base + "?" + "a" + "#" + "b" == "http://h?a#b";
  }

  /** A fragment may hold a `?`: `http://h?a#x?y`, query `a`, fragment `x?y`, also becomes `http://h`. */
  lemma RemovedStringQuestionMarkInFragment()
    ensures RemovedString(Url("http://h?a#x?y", Some("a"), Some("x?y"))) == "http://h"
  {
    var base, q, f := "http://h", "?" + "a", "#" + "x?y";
    assert '?' !in base && '#' !in base;
    forall i | 0 <= i < |f| && i <= |f|
      ensures !(q <= f[i..])
    {
      if i == 2 {
        assert f[i..][1] == 'y';
      } else if i < 2 {
        assert f[i..][0] != '?';
      }
    }
    RemovedStringStripsBoth(base, "a", "x?y");
    assert base + "?" + "a" + "#" + "x?y" == "http://h?a#x?y";
  }

  /**
   * As written, a fragment that ends in `?query` loses that text in the
   * first step and is then no longer found, so part of it stays:
   * `base?query#head?query` becomes `base#head`.
   */
  lemma FragmentContainingQuerySurvives(base: string, query: string, head: string)
    requires '?' !in base && '#' !in base && '?' !in head && '#' !in head
    ensures RemovedString(Url(base + "?" + query + "#" + head + "?" + query, Some(query), Some(head + "?" + query)))
            == base + "#" + head
  {
    var q, kept := "?" + query, "#" + head;
    var f := "#" + (head + "?" + query);
    assert f == kept + q;
    assert base + "?" + query + "#" + head + "?" + query == base + q + (kept + q);
    assert '?' !in kept;
    QueryLeavesFragmentHead(base, q, kept);
    FragmentHeadIsNotFound(base, kept, f);
    assert base + kept == base + "#" + head;
  }

  /** The first step on `base q kept q`: both occurrences of `q` go. */
  lemma QueryLeavesFragmentHead(base: string, q: string, kept: string)
    requires q != [] && q[0] !in base && q[0] !in kept
    ensures RemoveAll(base + q + (kept + q), q) == base + kept
  {
    assert base + q + (kept + q) == base + (q + (kept + q));
    FirstCharAbsent(base, q + (kept + q), q);
    RemoveAllAfter(base, q, kept + q);
    assert kept + q + [] == kept + (q + []) && kept + q == kept + q + [];
    FirstCharAbsent(kept, q + [], q);
    RemoveAllAfter(kept, q, []);
    assert kept + [] == kept;
  }

  /** The second step: the fragment, longer than what is left of it, is no longer found. */
  lemma FragmentHeadIsNotFound(base: string, kept: string, f: string)
    requires |kept| < |f| && f[0] !in base
    ensures RemoveAll(base + kept, f) == base + kept
  {
    FirstCharAbsent(base, kept, f);
    RemoveAllKeepsPrefix(base, kept, f);
    RemoveAllShorter(kept, f);
  }

  /** The smallest case: `http://h?a#b?a`, query `a`, fragment `b?a`, keeps the fragment `b`. */
  lemma FragmentContainingQueryExample()
    ensures RemovedString(Url("http://h?a#b?a", Some("a"), Some("b?a"))) == "http://h#b"
  {
    var base, query, head := "http://h", "a", "b";
    assert '?' !in base && '#' !in base && '?' !in head && '#' !in head;
    FragmentContainingQuerySurvives(base, query, head);
    assert base + "?" + query + "#" + head + "?" + query == "http://h?a#b?a";
    assert head + "?" + query == "b?a";
    assert base + "#" + head == "http://h#b";
  }

  /** The string with the fragment removed first, then the query: what the helper's name promises. */
  function RemovedStringFragmentFirst(url: Url): (s: string)
    ensures |s| <= |url.absoluteString|
    ensures url.query.None? && url.fragment.None? ==> s == url.absoluteString
  {
    var afterFragment := if url.fragment.Some? then RemoveAll(url.absoluteString, "#" + url.fragment.value) else url.absoluteString;
    if url.query.Some? then RemoveAll(afterFragment, "?" + url.query.value) else afterFragment
  }

  /**
   * Removing the fragment first leaves the base of every `base?query#fragment`
   * whose base has no `?` and no `#` and whose parts have no `#`, whatever
   * `?` the fragment holds.
   */
  lemma FragmentFirstStripsBoth(base: string, query: string, fragment: string)
    requires '?' !in base && '#' !in base && '#' !in query && '#' !in fragment
    ensures RemovedStringFragmentFirst(Url(base + "?" + query + "#" + fragment, Some(query), Some(fragment))) == base
  {
    var q, f := "?" + query, "#" + fragment;
    assert base + "?" + query + "#" + fragment == (base + q) + f + [];
    assert '#' !in base + q;
    assert (base + q) + f + [] == (base + q) + (f + []);
    FirstCharAbsent(base + q, f + [], f);
    RemoveAllAfter(base + q, f, []);
    assert base + q + [] == base + q;
    assert base + q == base + q + [] == base + (q + []);
    FirstCharAbsent(base, q + [], q);
    RemoveAllAfter(base, q, []);
  }

  /** The corrected order on the input that shows the difference. */
  lemma FragmentFirstOnExample()
    ensures RemovedStringFragmentFirst(Url("http://h?a#b?a", Some("a"), Some("b?a"))) == "http://h"
  {
    FragmentFirstStripsBoth("http://h", "a", "b?a");
    assert "http://h" + "?" + "a" + "#" + "b?a" == "http://h?a#b?a";
  }

  // ---------------------------------------------------------------------
  // attributes and fileSize

  /** Swift's `UInt64`. */
  newtype uint64 = x: int | 0 <= x < 0x1_0000_0000_0000_0000

  /** A value stored in the attribute dictionary, as `as? UInt64` sees it: an integer, or something else. */
  datatype AttributeValue = Integer(n: int) | NonInteger

  /** The raw value of `FileAttributeKey.size`. */
  const SizeKey: string := "NSFileSize"

  type FileAttributes = map<string, AttributeValue>

  /** `value as? UInt64`: succeeds on the integers that fit in 64 unsigned bits. */
  function AsUInt64(v: AttributeValue): (r: Option<uint64>)
    ensures r.Some? <==> v.Integer? && 0 <= v.n < 0x1_0000_0000_0000_0000
    ensures r.Some? ==> r.value as int == v.n
  {
    if v.Integer? && 0 <= v.n < 0x1_0000_0000_0000_0000 then Some(v.n as uint64) else None
  }

  /** `attributes`: the dictionary `attributesOfItem` returned, or `nil` when it threw. */
  function Attributes(lookup: Result<FileAttributes, NSError>): (r: Option<FileAttributes>)
    ensures r.None? <==> lookup.Failure?
    ensures r.Some? ==> r.value == lookup.value
  {
    match lookup
    case Success(m) => Some(m)
    case Failure(_) => None
  }

  /**
   * `fileSize`: the size entry when the attributes are there and it is a
   * `UInt64`; 0 otherwise, so 0 also stands for "unknown".
   */
  function FileSize(attributes: Option<FileAttributes>): (r: uint64)
    ensures attributes.None? ==> r == 0
    ensures attributes.Some? && SizeKey !in attributes.value ==> r == 0
    ensures attributes.Some? && SizeKey in attributes.value ==>
              match AsUInt64(attributes.value[SizeKey])
              case None => r == 0
              case Some(n) => r == n
    ensures r != 0 ==> attributes.Some? && SizeKey in attributes.value && attributes.value[SizeKey] == Integer(r as int)
  {
    match attributes
    case None => 0
    case Some(m) =>
      if SizeKey in m then
        match AsUInt64(m[SizeKey])
        case Some(n) => n
        case None => 0
      else 0
  }

  /** A failed attribute lookup gives size 0 and does not throw. */
  lemma FileSizeOfFailedLookup(e: NSError)
    ensures FileSize(Attributes(Failure(e))) == 0
  {
  }
}
