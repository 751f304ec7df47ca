/** City search input and location detection: the trimmed-length guard on a
    typed query, the query derived from a reverse-geocoded address, and the
    choice of city with its fallback to Jakarta. */
module Location {
  import opened Wrappers

  /** The characters `String.prototype.trim` removes: ECMAScript WhiteSpace
      (tab, vertical tab, form feed, byte-order mark and the space separators)
      and LineTerminator. */
  predicate IsWhitespace(c: char) {
    var n := c as int;
    || n == 0x09 || n == 0x0B || n == 0x0C || n == 0xFEFF
    || n == 0x20 || n == 0xA0 || n == 0x1680 || 0x2000 <= n <= 0x200A
    || n == 0x202F || n == 0x205F || n == 0x3000
    || n == 0x0A || n == 0x0D || n == 0x2028 || n == 0x2029
  }

  predicate AllWhitespace(s: string) {
    forall i :: 0 <= i < |s| ==> IsWhitespace(s[i])
  }

  /** Neither end of the text is whitespace. */
  predicate Edged(s: string) {
    |s| == 0 || (!IsWhitespace(s[0]) && !IsWhitespace(s[|s| - 1]))
  }

  /** `r` is `s` without its leading whitespace: a suffix of `s`, everything
      before it is whitespace, and it does not start with whitespace. */
  predicate StartTrimmed(s: string, r: string) {
    && |r| <= |s| && r == s[|s| - |r|..]
    && AllWhitespace(s[..|s| - |r|])
    && (|r| == 0 || !IsWhitespace(r[0]))
  }

  /** `r` is `s` without its trailing whitespace: a prefix of `s`, everything
      after it is whitespace, and it does not end with whitespace. */
  predicate EndTrimmed(s: string, r: string) {
    && |r| <= |s| && r == s[..|r|]
    && AllWhitespace(s[|r|..])
    && (|r| == 0 || !IsWhitespace(r[|r| - 1]))
  }

  /** The text with its leading whitespace removed. */
  function TrimStart(s: string): (r: string)
    ensures StartTrimmed(s, r)
  {
    if |s| > 0 && IsWhitespace(s[0]) then
      var r := TrimStart(s[1..]);
      SkipFront(s, r);
      r
    else s
  }

  /** The text with its trailing whitespace removed. */
  function TrimEnd(s: string): (r: string)
    ensures EndTrimmed(s, r)
  {
    if |s| > 0 && IsWhitespace(s[|s| - 1]) then
      var r := TrimEnd(s[..|s| - 1]);
      SkipBack(s, r);
      r
    else s
  }

  lemma SkipFront(s: string, r: string)
    requires |s| > 0 && IsWhitespace(s[0])
    requires |r| <= |s| - 1 && r == s[1..][|s| - 1 - |r|..]
    requires AllWhitespace(s[1..][..|s| - 1 - |r|])
    ensures r == s[|s| - |r|..] && AllWhitespace(s[..|s| - |r|])
  {
    assert s[1..][..|s| - 1 - |r|] == s[1..|s| - |r|];
  }

  lemma SkipBack(s: string, r: string)
    requires |s| > 0 && IsWhitespace(s[|s| - 1])
    requires |r| <= |s| - 1 && r == s[..|s| - 1][..|r|]
    requires AllWhitespace(s[..|s| - 1][|r|..])
    ensures r == s[..|r|] && AllWhitespace(s[|r|..])
  {
    assert s[..|s| - 1][|r|..] == s[|r|..|s| - 1];
  }

  /** `s` is whitespace up to index `i`, then `r`, then only whitespace. */
  predicate Padded(s: string, i: nat, r: string) {
    && i + |r| <= |s| && s[i..i + |r|] == r
    && AllWhitespace(s[..i]) && AllWhitespace(s[i + |r|..])
  }

  /** `s.trim()`: the input is the leading whitespace `TrimStart` removes,
      then the result, then only whitespace; the result has no whitespace at
      either end. */
  function Trim(s: string): (r: string)
    ensures Edged(r)
    ensures Padded(s, |s| - |TrimStart(s)|, r)
  {
    var t := TrimStart(s);
    var r := TrimEnd(t);
    Rejoin(s, t, r);
    r
  }

  lemma Rejoin(s: string, t: string, r: string)
    requires StartTrimmed(s, t) && EndTrimmed(t, r)
    ensures Padded(s, |s| - |t|, r)
    ensures Edged(r)
  {
    assert s[|s| - |t| + |r|..] == t[|r|..];
  }

  /** Removing whitespace from the front of a text. */
  lemma {:induction false} TrimStartSkips(pre: string, x: string)
    requires AllWhitespace(pre)
    ensures TrimStart(pre + x) == TrimStart(x)
    decreases |pre|
  {
    if |pre| > 0 {
      assert (pre + x)[0] == pre[0];
      assert IsWhitespace(pre[0]);
      assert (pre + x)[1..] == pre[1..] + x;
      TrimStartSkips(pre[1..], x);
    } else {
      assert pre + x == x;
    }
  }

  /** Removing whitespace from the back of a text. */
  lemma {:induction false} TrimEndSkips(x: string, post: string)
    requires AllWhitespace(post)
    ensures TrimEnd(x + post) == TrimEnd(x)
    decreases |post|
  {
    if |post| > 0 {
      var shorter := post[..|post| - 1];
      assert (x + post)[|x + post| - 1] == post[|post| - 1];
      assert IsWhitespace(post[|post| - 1]);
      assert (x + post)[..|x + post| - 1] == x + shorter;
      TrimEndSkips(x, shorter);
    } else {
      assert x + post == x;
    }
  }

  /** Trimming the front of a text with some non-whitespace character keeps its tail. */
  lemma {:induction false} TrimStartKeepsTail(s: string, post: string)
    requires !AllWhitespace(s)
    ensures TrimStart(s + post) == TrimStart(s) + post
    decreases |s|
  {
    if IsWhitespace(s[0]) {
      assert (s + post)[1..] == s[1..] + post;
      TrimStartKeepsTail(s[1..], post);
    }
  }

  /** Trimming ignores any whitespace added around a text. */
  lemma TrimIgnoresPadding(pre: string, s: string, post: string)
    requires AllWhitespace(pre) && AllWhitespace(post)
    ensures Trim(pre + s + post) == Trim(s)
  {
    assert pre + s + post == pre + (s + post);
    TrimStartSkips(pre, s + post);
    if AllWhitespace(s) {
      BlankStart(s, post);
    } else {
      KeptStart(s, post);
      KeptEnd(s, post);
    }
  }

  /** A text with some non-whitespace character keeps any trailing whitespace
      through the trimming of its front. */
  lemma KeptStart(s: string, post: string)
    requires !AllWhitespace(s)
    ensures TrimStart(s + post) == TrimStart(s) + post
  {
    TrimStartKeepsTail(s, post);
  }

  /** Trailing whitespace after a front-trimmed text is removed by trimming its back. */
  lemma KeptEnd(s: string, post: string)
    requires AllWhitespace(post)
    ensures TrimEnd(TrimStart(s) + post) == TrimEnd(TrimStart(s))
  {
    TrimEndSkips(TrimStart(s), post);
  }

  /** A text of whitespace only trims to nothing, with or without more whitespace after it. */
  lemma BlankStart(s: string, post: string)
    requires AllWhitespace(s) && AllWhitespace(post)
    ensures TrimStart(s + post) == TrimStart(s) == []
  {
    assert AllWhitespace(s + post);
    TrimStartSkips(s + post, []);
    TrimStartSkips(s, []);
    assert s + post + [] == s + post && s + [] == s;
  }

  /** Trimming an already trimmed text changes nothing. */
  lemma TrimIdempotent(s: string)
    ensures Trim(Trim(s)) == Trim(s)
  {
    var r := Trim(s);
    if |r| > 0 {
      assert TrimStart(r) == r;
      assert TrimEnd(r) == r;
    }
  }

  /** A character outside the Basic Multilingual Plane, which UTF-16 stores as
      a surrogate pair. */
  predicate IsSupplementary(c: char) {
    c as int > 0xFFFF
  }

  /** JavaScript's `length` of a text: its count of UTF-16 code units, one per
      character of the Basic Multilingual Plane and two per other character. */
  function Utf16Length(s: string): (n: nat)
    ensures |s| <= n <= 2 * |s|
    ensures n == |s| <==> forall i :: 0 <= i < |s| ==> !IsSupplementary(s[i])
  {
    if |s| == 0 then 0
    else Units(s[0]) + Utf16Length(s[1..])
  }

  /** The UTF-16 code units of one character. */
  function Units(c: char): nat {
    if IsSupplementary(c) then 2 else 1
  }

  /** `length` adds up over concatenation, and a single character counts its own
      units; with the empty text at zero, these fix `length` of every text. */
  lemma {:induction false} Utf16LengthAppend(a: string, b: string)
    ensures Utf16Length(a + b) == Utf16Length(a) + Utf16Length(b)
    ensures |a| == 1 ==> Utf16Length(a) == Units(a[0])
    decreases |a|
  {
    if |a| > 0 {
      assert (a + b)[0] == a[0];
      assert (a + b)[1..] == a[1..] + b;
      Utf16LengthAppend(a[1..], b);
    } else {
      assert a + b == b;
    }
  }

  const MinQueryLength: nat := 3

  /** The city-search guard: the trimmed input is sent as the query when its
      `length` is at least three, and no request is made otherwise. */
  function SearchQuery(input: string): (q: Option<string>)
    ensures q.None? <==> Utf16Length(Trim(input)) < MinQueryLength
    ensures q.Some? ==> q.value == Trim(input) && Edged(q.value)
  {
    var query := Trim(input);
    if Utf16Length(query) < MinQueryLength then None else Some(query)
  }

  /** Two characters outside the Basic Multilingual Plane already have a
      `length` of four, so they pass the guard. */
  lemma TwoSupplementaryPass()
    ensures Utf16Length("\U{1F600}\U{1F600}") == 4
    ensures SearchQuery("\U{1F600}\U{1F600}") == Some("\U{1F600}\U{1F600}")
  {
    var s := "\U{1F600}\U{1F600}";
    assert TrimStart(s) == s;
    assert TrimEnd(s) == s;
    assert Utf16Length(s[1..]) == 2;
  }

  /** Three characters of the Basic Multilingual Plane pass and two do not. */
  lemma BmpGuard(s: string)
    requires forall i :: 0 <= i < |s| ==> !IsSupplementary(s[i])
    requires Edged(s)
    ensures SearchQuery(s).Some? <==> |s| >= MinQueryLength
  {
    assert TrimStart(s) == s;
    assert TrimEnd(s) == s;
  }

  /** Whitespace typed around a query never changes whether or what is searched. */
  lemma SearchQueryIgnoresPadding(pre: string, input: string, post: string)
    requires AllWhitespace(pre) && AllWhitespace(post)
    ensures SearchQuery(pre + input + post) == SearchQuery(input)
  {
    TrimIgnoresPadding(pre, input, post);
  }

  /** A candidate of the city search service: its `id` and `lokasi`. */
  datatype City = City(id: string, lokasi: string)

  const DefaultCity: City := City("1301", "Kota Jakarta")
  const UnknownLocality: string := "Lokasi Tidak Dikenal"

  /** The `address` of a reverse-geocoding reply; either part may be missing. */
  datatype Address = Address(city: Option<string>, state: Option<string>)

  /** A JavaScript string operand of `||` is truthy when present and non-empty. */
  predicate Truthy(s: Option<string>) {
    s.Some? && s.value != ""
  }

  /** `address.city || address.state || 'Lokasi Tidak Dikenal'`. */
  function Locality(a: Address): (r: string)
    ensures r != ""
    ensures Truthy(a.city) ==> r == a.city.value
    ensures !Truthy(a.city) && Truthy(a.state) ==> r == a.state.value
    ensures !Truthy(a.city) && !Truthy(a.state) ==> r == UnknownLocality
  {
    if Truthy(a.city) then a.city.value
    else if Truthy(a.state) then a.state.value
    else UnknownLocality
  }

  /** `s.split(' ')[0]`: the longest prefix without a space. */
  function FirstToken(s: string): (r: string)
    ensures r <= s
    ensures ' ' !in r
    ensures |r| == |s| || s[|r|] == ' '
  {
    if |s| == 0 || s[0] == ' ' then ""
    else [s[0]] + FirstToken(s[1..])
  }

  /** The first token of a word followed by a space is that word. */
  lemma FirstTokenOfWords(word: string, rest: string)
    requires ' ' !in word
    ensures FirstToken(word) == word
    ensures FirstToken(word + " " + rest) == word
  {
    var s := word + " " + rest;
    var r := FirstToken(s);
    assert s[|word|] == ' ';
    assert s[..|word|] == word;
  }

  /** The city-search query derived from a reverse-geocoded address. */
  function LocationQuery(a: Address): (q: string)
    ensures q <= Locality(a) && ' ' !in q
    ensures |q| == |Locality(a)| || Locality(a)[|q|] == ' '
  {
    FirstToken(Locality(a))
  }

  /** The first candidate when there is one, else Jakarta. */
  function ResolveCity(candidates: Option<seq<City>>): (c: City)
    ensures candidates.Some? && |candidates.value| > 0 ==> c == candidates.value[0]
    ensures candidates.None? || |candidates.value| == 0 ==> c == DefaultCity
  {
    if candidates.Some? && |candidates.value| > 0 then candidates.value[0] else DefaultCity
  }

  /** What the browser answered to the geolocation request. */
  datatype Geolocation = Unsupported | Denied | Granted

  /** The city whose schedule is loaded, and whether the user was alerted that
      the detection fell back to Jakarta. */
  datatype Resolution = Resolution(city: City, warned: bool)

  /** Location detection. The reverse-geocoding reply is `Threw` when the call
      or its JSON failed, and carries no address when the reply lacked one (the
      property read then throws); `search` answers the city search for a query. */
  function DetectCity(
    geo: Geolocation,
    reverse: Reply<Option<Address>>,
    search: string -> Reply<Option<seq<City>>>): (r: Resolution)
    ensures r.warned ==> r.city == DefaultCity
    ensures !r.warned <==>
      && geo == Granted && reverse.Replied? && reverse.value.Some?
      && var reply := search(LocationQuery(reverse.value.value));
      && reply.Replied? && reply.value.Some? && |reply.value.value| > 0
    ensures !r.warned ==> r.city == search(LocationQuery(reverse.value.value)).value.value[0]
  {
    if geo != Granted then Resolution(DefaultCity, true)
    else match reverse
      case Threw => Resolution(DefaultCity, true)
      case Replied(None) => Resolution(DefaultCity, true)
      case Replied(Some(address)) =>
        match search(LocationQuery(address))
        case Threw => Resolution(DefaultCity, true)
        case Replied(candidates) =>
          var found := candidates.Some? && |candidates.value| > 0;
          Resolution(ResolveCity(candidates), !found)
  }
}
