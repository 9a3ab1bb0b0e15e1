/** The part of the browser's URL handling the visit flow relies on: `location.search` and
    `URLSearchParams` (the `application/x-www-form-urlencoded` parser of the WHATWG URL
    Standard, section 5.1) on well-formed input, together with the encoder that produces
    such input. */
module Query {
  import opened Wrappers
  import opened Strings
  import opened UriComponent

  /** Name-value pairs in the order they appear in the query. */
  type Params = seq<(string, string)>

  /** The code points the URL parser percent-encodes in the query of a special (`http`,
      `https`) URL: C0 controls, space, `"`, `#`, `<`, `>`, `'` and everything above U+007E
      (the special-query percent-encode set of the WHATWG URL Standard, section 1.3). */
  predicate InSpecialQuerySet(c: char) {
    c as int <= 0x20 || c as int > 0x7E || c in "\"#<>'"
  }

  /** One query character as the URL parser stores it: percent-encoded UTF-8 bytes for a
      code point of the set above, the character itself otherwise. */
  function ReencodeChar(c: char): (t: string)
    ensures 1 <= |t|
    ensures forall i :: 0 <= i < |t| ==> !InSpecialQuerySet(t[i])
  {
    if InSpecialQuerySet(c) then PercentBytes(Utf8(c)) else [c]
  }

  /** The query as the URL parser stores it. */
  function ReencodeQuery(q: string): (r: string)
    ensures |r| >= |q|
    ensures forall i :: 0 <= i < |r| ==> !InSpecialQuerySet(r[i])
    decreases |q|
  {
    if q == [] then [] else ReencodeChar(q[0]) + ReencodeQuery(q[1..])
  }

  /** `location.search` of an `http` or `https` `url`: `?` followed by the re-encoded query,
      or the empty string when the query is absent or empty. The fragment, from the first
      `#`, is not part of it. */
  function Search(url: string): (q: string)
    ensures '#' !in q
    ensures q != [] ==> |q| >= 2 && q[0] == '?'
  {
    var beforeFragment := match IndexOf(url, '#') case None => url case Some(h) => url[..h];
    match IndexOf(beforeFragment, '?')
    case None => ""
    case Some(i) => if i + 1 == |beforeFragment| then "" else "?" + ReencodeQuery(beforeFragment[i + 1..])
  }

  /** The search of `origin ++ "?" ++ query` is `"?"` and the re-encoded `query` when
      `origin` holds neither `?` nor `#` and `query` holds no `#`. */
  lemma SearchAfterOrigin(origin: string, query: string)
    requires '?' !in origin && '#' !in origin && '#' !in query && query != []
    ensures Search(origin + "?" + query) == "?" + ReencodeQuery(query)
  {
    var url := origin + "?" + query;
    assert '#' !in url by {
      assert url == origin + ['?'] + query;
    }
    IndexOfAfterPrefix(origin, '?', query);
    assert url == origin + ['?'] + query;
    assert url[|origin| + 1..] == query;
  }

  /** Re-encoding works character by character. */
  lemma {:induction false} ReencodeAppend(a: string, b: string)
    ensures ReencodeQuery(a + b) == ReencodeQuery(a) + ReencodeQuery(b)
    decreases |a|
  {
    if a == [] {
      assert a + b == b;
    } else {
      var ab := a + b;
      assert ab[0] == a[0] && ab[1..] == a[1..] + b;
      ReencodeAppend(a[1..], b);
      ConcatAssoc(ReencodeChar(a[0]), ReencodeQuery(a[1..]), ReencodeQuery(b));
    }
  }

  /** Re-encoding a joined text re-encodes both sides and the character between them. */
  lemma ReencodeAround(a: string, sep: char, b: string)
    ensures ReencodeQuery(a + [sep] + b) == ReencodeQuery(a) + ReencodeChar(sep) + ReencodeQuery(b)
  {
    var x := a + [sep];
    ReencodeAppend(a, [sep]);
    ReencodeSingle(sep);
    ReencodeAppend(x, b);
  }

  lemma ReencodeSingle(c: char)
    ensures ReencodeQuery([c]) == ReencodeChar(c)
  {
    assert [c][1..] == [];
  }

  /** Text with nothing of the set is left as it is. */
  lemma {:induction false} ReencodeUntouched(t: string)
    requires forall i :: 0 <= i < |t| ==> !InSpecialQuerySet(t[i])
    ensures ReencodeQuery(t) == t
    decreases |t|
  {
    if t != [] {
      ReencodeUntouched(t[1..]);
      assert t == [t[0]] + t[1..];
    }
  }

  /** Re-encoding one `encodeURIComponent`-encoded character writes the `'` as `%27` and
      changes nothing else. */
  lemma ReencodeEncodedChar(c: char)
    ensures ReencodeQuery(EncodeChar(c, true)) == EncodeChar(c, false)
  {
    if IsKept(c, true) {
      ReencodeSingle(c);
    } else {
      ReencodeUntouched(PercentBytes(Utf8(c)));
    }
  }

  /** The `'` that `encodeURIComponent` keeps is stored by the URL parser as `%27`. */
  lemma QuoteIsReencoded(a: string, b: string)
    ensures ReencodeQuery(a + "'" + b) == ReencodeQuery(a) + "%27" + ReencodeQuery(b)
  {
    assert PercentBytes(Utf8('\'')) == "%27";
    ReencodeAround(a, '\'', b);
  }

  /** The URL parser turns `encodeURIComponent(s)` into the encoding of `s` that does not
      keep `'`. */
  lemma {:induction false} ReencodeEncode(s: string)
    ensures ReencodeQuery(EncodeWith(s, true)) == EncodeWith(s, false)
    decreases |s|
  {
    if s != [] {
      ReencodeAppend(EncodeChar(s[0], true), EncodeWith(s[1..], true));
      ReencodeEncodedChar(s[0]);
      ReencodeEncode(s[1..]);
    }
  }

  /** Form decoding reads `+` as a space. */
  function PlusToSpace(s: string): (r: string)
    ensures |r| == |s| && '+' !in r
    ensures forall i :: 0 <= i < |s| && s[i] == '+' ==> r[i] == ' '
    ensures forall i :: 0 <= i < |s| && s[i] != '+' ==> r[i] == s[i]
  {
    seq(|s|, i requires 0 <= i < |s| => if s[i] == '+' then ' ' else s[i])
  }

  lemma PlusToSpaceIdentity(s: string)
    requires '+' !in s
    ensures PlusToSpace(s) == s
  {
  }

  /** Decodes one name or value: `+` becomes a space, then percent-decoding applies. */
  function FormDecode(s: string): Option<string> {
    Decode(PlusToSpace(s))
  }

  /** Cuts one `name=value` part at its first `=`; without one, the value is empty. */
  function ParsePair(part: string): (nv: (string, string))
    ensures '=' !in nv.0
    ensures part == nv.0 || part == nv.0 + "=" + nv.1
  {
    match IndexOf(part, '=')
    case None => (part, "")
    case Some(i) =>
      assert part == part[..i] + "=" + part[i + 1..];
      (part[..i], part[i + 1..])
  }

  /** Decodes one non-empty `name=value` part. */
  function ParsePart(part: string): Option<(string, string)> {
    var nv := ParsePair(part);
    match (FormDecode(nv.0), FormDecode(nv.1))
    case (Some(name), Some(value)) => Some((name, value))
    case _ => None
  }

  /** Decodes the `&`-separated parts of a query; empty parts are skipped. */
  function ParseParts(parts: seq<string>): (r: Option<Params>)
    ensures r.Some? ==> |r.value| <= |parts|
    decreases |parts|
  {
    if parts == [] then
      Some([])
    else if parts[0] == "" then
      ParseParts(parts[1..])
    else
      match (ParsePart(parts[0]), ParseParts(parts[1..]))
      case (Some(nv), Some(rest)) => Some([nv] + rest)
      case _ => None
  }

  /** `new URLSearchParams(init)`: one leading `?` is dropped, the rest is split on `&`.
      `None` stands for input holding a malformed percent-escape or malformed UTF-8. */
  function SearchParams(init: string): (r: Option<Params>)
    ensures init == "" || init == "?" ==> r == Some([])
  {
    var q := if |init| > 0 && init[0] == '?' then init[1..] else init;
    assert q == "" ==> Split(q, '&') == [""] && [""][1..] == [];
    ParseParts(Split(q, '&'))
  }

  /** `params.get(key)`: the value of the first pair named `key`, or `None` (`null`). */
  function Get(ps: Params, key: string): (r: Option<string>)
    ensures r.None? <==> forall i :: 0 <= i < |ps| ==> ps[i].0 != key
    ensures r.Some? ==>
      exists i :: 0 <= i < |ps| && ps[i] == (key, r.value) && forall j :: 0 <= j < i ==> ps[j].0 != key
    decreases |ps|
  {
    if ps == [] then
      None
    else if ps[0].0 == key then
      assert ps[0] == (key, ps[0].1);
      Some(ps[0].1)
    else
      var r := Get(ps[1..], key);
      assert r.Some? ==> exists i :: 0 <= i < |ps| && ps[i] == (key, r.value) && forall j :: 0 <= j < i ==> ps[j].0 != key by {
        if r.Some? {
          var i :| 0 <= i < |ps| - 1 && ps[1..][i] == (key, r.value) && forall j :: 0 <= j < i ==> ps[1..][j].0 != key;
          assert forall j :: 0 <= j < i + 1 ==> ps[j].0 != key by {
            forall j | 0 <= j < i + 1
              ensures ps[j].0 != key
            {
              if j > 0 {
                assert ps[j] == ps[1..][j - 1];
              }
            }
          }
        }
      }
      assert r.None? ==> forall i :: 0 <= i < |ps| ==> ps[i].0 != key by {
        if r.None? {
          forall i | 0 <= i < |ps|
            ensures ps[i].0 != key
          {
            if i > 0 {
              assert ps[i] == ps[1..][i - 1];
            }
          }
        }
      }
      r
  }

  /** Looking up either name of a two-pair list with distinct names finds its own value. */
  lemma GetTwo(k1: string, v1: string, k2: string, v2: string)
    requires k1 != k2
    ensures Get([(k1, v1), (k2, v2)], k1) == Some(v1)
    ensures Get([(k1, v1), (k2, v2)], k2) == Some(v2)
  {
  }

  /** One pair as `encodeURIComponent(name) + "=" + encodeURIComponent(value)` when
      `keepQuote` holds, and as the URL parser re-encodes that when it does not. */
  function EncodePair(nv: (string, string), keepQuote: bool): string {
    EncodeWith(nv.0, keepQuote) + "=" + EncodeWith(nv.1, keepQuote)
  }

  /** The query that carries `ps`: the encoded pairs joined by `&`. */
  function BuildQuery(ps: Params, keepQuote: bool): string
    decreases |ps|
  {
    if ps == [] then ""
    else if |ps| == 1 then EncodePair(ps[0], keepQuote)
    else EncodePair(ps[0], keepQuote) + "&" + BuildQuery(ps[1..], keepQuote)
  }

  /** The URL parser's re-encoding of one built pair is the pair built without keeping `'`. */
  lemma ReencodePair(nv: (string, string))
    ensures ReencodeQuery(EncodePair(nv, true)) == EncodePair(nv, false)
  {
    var k, v := EncodeWith(nv.0, true), EncodeWith(nv.1, true);
    assert EncodePair(nv, true) == k + ['='] + v;
    ReencodeAround(k, '=', v);
    ReencodeEncode(nv.0);
    ReencodeEncode(nv.1);
  }

  /** Re-encoding keeps the `&` between two texts it re-encodes. */
  lemma ReencodeJoined(a: string, b: string, a': string, b': string)
    requires ReencodeQuery(a) == a' && ReencodeQuery(b) == b'
    ensures ReencodeQuery(a + ['&'] + b) == a' + ['&'] + b'
  {
    ReencodeAround(a, '&', b);
  }

  /** The URL parser's re-encoding of a built query is the query built without keeping `'`. */
  lemma {:induction false} ReencodeBuildQuery(ps: Params)
    ensures ReencodeQuery(BuildQuery(ps, true)) == BuildQuery(ps, false)
    decreases |ps|
  {
    if ps != [] {
      ReencodePair(ps[0]);
      if |ps| > 1 {
        var head, rest := EncodePair(ps[0], true), BuildQuery(ps[1..], true);
        assert BuildQuery(ps, true) == head + ['&'] + rest;
        ReencodeBuildQuery(ps[1..]);
        ReencodeJoined(head, rest, EncodePair(ps[0], false), BuildQuery(ps[1..], false));
      }
    }
  }

  /** A built query never holds `#` (which would start the fragment), and it is empty only
      when there are no pairs. */
  lemma {:induction false} BuildQueryShape(ps: Params, keepQuote: bool)
    ensures '#' !in BuildQuery(ps, keepQuote)
    ensures ps != [] ==> BuildQuery(ps, keepQuote) != ""
    decreases |ps|
  {
    if ps != [] {
      var head := EncodePair(ps[0], keepQuote);
      EncodeHasNoDelimiters(ps[0].0, keepQuote);
      EncodeHasNoDelimiters(ps[0].1, keepQuote);
      assert head == EncodeWith(ps[0].0, keepQuote) + ['='] + EncodeWith(ps[0].1, keepQuote);
      assert '#' !in head;
      if |ps| > 1 {
        BuildQueryShape(ps[1..], keepQuote);
        assert BuildQuery(ps, keepQuote) == head + ['&'] + BuildQuery(ps[1..], keepQuote);
      }
    }
  }

  /** A query of two pairs whose first name, first value and second name are made of kept
      characters reads as written, with only the last value encoded. */
  lemma BuildTwoVerbatimPairs(k1: string, v1: string, k2: string, v2: string)
    requires forall i :: 0 <= i < |k1| ==> IsKept(k1[i], true)
    requires forall i :: 0 <= i < |v1| ==> IsKept(v1[i], true)
    requires forall i :: 0 <= i < |k2| ==> IsKept(k2[i], true)
    ensures BuildQuery([(k1, v1), (k2, v2)], true) == k1 + "=" + v1 + "&" + k2 + "=" + Encode(v2)
  {
    assert [(k1, v1), (k2, v2)][1..] == [(k2, v2)];
    EncodeUnreserved(k1, true);
    EncodeUnreserved(v1, true);
    EncodeUnreserved(k2, true);
    var y := k1 + "=" + v1 + "&";
    var e := Encode(v2);
    assert BuildQuery([(k1, v1), (k2, v2)], true) == y + (k2 + "=" + e);
    ConcatAssoc(y, k2 + "=", e);
    ConcatAssoc(y, k2, "=");
  }

  /** A query of one pair whose name is made of kept characters reads as written, with only
      the value encoded. */
  lemma BuildOneVerbatimPair(k: string, v: string)
    requires forall i :: 0 <= i < |k| ==> IsKept(k[i], true)
    ensures BuildQuery([(k, v)], true) == k + "=" + Encode(v)
  {
    EncodeUnreserved(k, true);
  }

  /** An encoded component read back through form decoding gives the original. */
  lemma FormDecodeEncode(s: string, keepQuote: bool)
    ensures FormDecode(EncodeWith(s, keepQuote)) == Some(s)
  {
    EncodeHasNoDelimiters(s, keepQuote);
    PlusToSpaceIdentity(EncodeWith(s, keepQuote));
    DecodeEncodeWith(s, keepQuote);
  }

  lemma ParsePairEncoded(nv: (string, string), keepQuote: bool)
    ensures '&' !in EncodePair(nv, keepQuote)
    ensures ParsePair(EncodePair(nv, keepQuote)) == (EncodeWith(nv.0, keepQuote), EncodeWith(nv.1, keepQuote))
  {
    var part := EncodePair(nv, keepQuote);
    var k, v := EncodeWith(nv.0, keepQuote), EncodeWith(nv.1, keepQuote);
    EncodeHasNoDelimiters(nv.0, keepQuote);
    EncodeHasNoDelimiters(nv.1, keepQuote);
    assert part == k + ['='] + v;
    IndexOfAfterPrefix(k, '=', v);
    assert part[..|k|] == k;
    assert part[|k| + 1..] == v;
  }

  lemma ParsePartEncoded(nv: (string, string), keepQuote: bool)
    ensures EncodePair(nv, keepQuote) != ""
    ensures ParsePart(EncodePair(nv, keepQuote)) == Some(nv)
  {
    ParsePairEncoded(nv, keepQuote);
    assert EncodePair(nv, keepQuote)[|EncodeWith(nv.0, keepQuote)|] == '=';
    FormDecodeEncode(nv.0, keepQuote);
    FormDecodeEncode(nv.1, keepQuote);
  }

  /** Parsing a built query gives back exactly the pairs it was built from. */
  lemma {:induction false} ParseBuildQuery(ps: Params, keepQuote: bool)
    ensures ParseParts(Split(BuildQuery(ps, keepQuote), '&')) == Some(ps)
    decreases |ps|
  {
    if ps == [] {
      assert Split("", '&') == [""];
      assert [""][1..] == [];
    } else {
      var head := EncodePair(ps[0], keepQuote);
      ParsePairEncoded(ps[0], keepQuote);
      ParsePartEncoded(ps[0], keepQuote);
      var tail: seq<string>;
      if |ps| == 1 {
        tail := [];
        assert Split(head, '&') == [head];
        assert ps[1..] == [];
      } else {
        tail := Split(BuildQuery(ps[1..], keepQuote), '&');
        assert BuildQuery(ps, keepQuote) == head + ['&'] + BuildQuery(ps[1..], keepQuote);
        SplitAfterHead(head, '&', BuildQuery(ps[1..], keepQuote));
        ParseBuildQuery(ps[1..], keepQuote);
      }
      assert Split(BuildQuery(ps, keepQuote), '&') == [head] + tail;
      assert ([head] + tail)[1..] == tail;
      assert ParseParts(tail) == Some(ps[1..]);
      assert ps == [ps[0]] + ps[1..];
    }
  }

  /** `new URLSearchParams("?" + query)` of a built query holds exactly the pairs it was
      built from, whether or not the URL parser has re-encoded its `'`. */
  lemma SearchParamsBuildQuery(ps: Params, keepQuote: bool)
    ensures SearchParams("?" + BuildQuery(ps, keepQuote)) == Some(ps)
  {
    assert ("?" + BuildQuery(ps, keepQuote))[1..] == BuildQuery(ps, keepQuote);
    ParseBuildQuery(ps, keepQuote);
  }

  /** What `location.search` yields for `origin ++ "?" ++ BuildQuery(ps)` reads back through
      `URLSearchParams` as exactly `ps`: the `%27` the URL parser writes for a `'` decodes
      back to `'`. */
  lemma SearchOfBuiltUrl(origin: string, ps: Params)
    requires '?' !in origin && '#' !in origin && ps != []
    ensures SearchParams(Search(origin + "?" + BuildQuery(ps, true))) == Some(ps)
  {
    BuildQueryShape(ps, true);
    SearchAfterOrigin(origin, BuildQuery(ps, true));
    ReencodeBuildQuery(ps);
    SearchParamsBuildQuery(ps, false);
  }
}
