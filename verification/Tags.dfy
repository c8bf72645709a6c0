/** Tag keywords (jmap/tags.go): `$tag/<name>` and `$tag/<name>/<value>`. */
module Tags {
  import opened GoStrings

  const PREFIX: Bytes := "$tag/"

  predicate IsTagKeyword(keyword: Bytes) { HasPrefix(keyword, PREFIX) && |keyword| > |PREFIX| }

  predicate IsLiteral(c: char) {
    'a' <= c <= 'z' || 'A' <= c <= 'Z' || '0' <= c <= '9' || c == '$' || c == '_' || c == '-'
  }

  function HexDigit(v: int): (c: char)
    requires 0 <= v < 16
  {
    if v < 10 then '0' + v as char else 'a' + (v - 10) as char
  }

  function HexValue(c: char): (v: Option<int>)
    ensures v.Some? ==> 0 <= v.value < 16
  {
    if '0' <= c <= '9' then Some(c as int - '0' as int)
    else if 'a' <= c <= 'f' then Some(c as int - 'a' as int + 10)
    else if 'A' <= c <= 'F' then Some(c as int - 'A' as int + 10)
    else None
  }

  // ----- segments -----

  function EscapeByte(c: char): (r: Bytes)
    requires c as int < 256
  {
    if IsLiteral(c) then [c] else ['~', HexDigit(c as int / 16), HexDigit(c as int % 16)]
  }

  function Escape(s: Bytes): (r: Bytes)
  {
    if s == [] then [] else Escape(s[..|s| - 1]) + EscapeByte(s[|s| - 1])
  }

  function Unescape(s: Bytes): (r: Option<Bytes>)
  {
    if s == [] then Some([])
    else if s[0] != '~' then Prepend(s[0], Unescape(s[1..]))
    else if |s| < 3 then None
    else
      var hi, lo := HexValue(s[1]), HexValue(s[2]);
      if hi.None? || lo.None? then None
      else Prepend((hi.value * 16 + lo.value) as char, Unescape(s[3..]))
  }

  function Prepend(c: char, r: Option<Bytes>): Option<Bytes>
    requires c as int < 256
  {
    match r case None => None case Some(t) => Some([c] + t)
  }

  method EscapeTagSegment(s: Bytes) returns (r: Bytes)
    ensures r == Escape(s)
  {
    r := [];
    for i := 0 to |s|
      invariant r == Escape(s[..i])
    {
      var c := s[i];
      assert s[..i + 1][..i] == s[..i];
      if IsLiteral(c) {
        r := r + [c];
      } else {
        r := r + ['~', HexDigit(c as int / 16), HexDigit(c as int % 16)];
      }
    }
    assert s[..|s|] == s;
  }

  function Append(b: Bytes, r: Option<Bytes>): Option<Bytes> {
    match r case None => None case Some(t) => Some(b + t)
  }

  method UnescapeTagSegment(s: Bytes) returns (r: Option<Bytes>)
    ensures r == Unescape(s)
  {
    var b: Bytes := [];
    var i := 0;
    assert s[i..] == s;
    AppendEmpty(Unescape(s));
    while i < |s|
      invariant 0 <= i <= |s|
      invariant Unescape(s) == Append(b, Unescape(s[i..]))
    {
      var c := s[i];
      var was := b;
      if c != '~' {
        b := b + [c];
        AppendPrepend(was, c, Unescape(s[i + 1..]));
        i := i + 1;
        continue;
      }
      if i + 2 >= |s| {
        return None;
      }
      var hi := HexValue(s[i + 1]);
      if hi.None? {
        return None;
      }
      var lo := HexValue(s[i + 2]);
      if lo.None? {
        return None;
      }
      var byte := (hi.value * 16 + lo.value) as char;
      b := b + [byte];
      var tail: Bytes := s[i + 3..];
      assert s[i..][3..] == tail;
      AppendPrepend(was, byte, Unescape(tail));
      i := i + 3;
    }
    assert s[i..] == [] && b + [] == b;
    r := Some(b);
  }

  lemma AppendEmpty(r: Option<Bytes>)
    ensures Append([], r) == r
  {
    if r.Some? { assert [] + r.value == r.value; }
  }

  lemma AppendPrepend(b: Bytes, c: char, r: Option<Bytes>)
    requires c as int < 256
    ensures Append(b, Prepend(c, r)) == Append(b + [c], r)
  {
    if r.Some? { assert b + ([c] + r.value) == (b + [c]) + r.value; }
  }

  lemma UnescapeEscapedByte(c: char, s: Bytes)
    requires c as int < 256
    ensures Unescape(EscapeByte(c) + s) == Prepend(c, Unescape(s))
  {
    var e := EscapeByte(c) + s;
    if IsLiteral(c) {
      assert e[1..] == s;
    } else {
      assert e[3..] == s;
    }
  }

  lemma Regroup(a: Bytes, b: Bytes, c: Bytes)
    ensures (a + b) + c == a + (b + c)
  {
  }

  lemma {:induction false} UnescapeEscapeThen(s: Bytes, t: Bytes)
    ensures Unescape(Escape(s) + t) == Append(s, Unescape(t))
  {
    if s == [] {
      assert Escape(s) + t == t;
      AppendEmpty(Unescape(t));
    } else {
      var n := |s| - 1;
      UnescapeEscapeThen(s[..n], EscapeByte(s[n]) + t);
      Regroup(Escape(s[..n]), EscapeByte(s[n]), t);
      UnescapeEscapedByte(s[n], t);
      AppendPrepend(s[..n], s[n], Unescape(t));
      assert s == s[..n] + [s[n]];
    }
  }

  /** Unescaping undoes escaping on every byte string. */
  lemma SegmentRoundTrip(s: Bytes)
    ensures Unescape(Escape(s)) == Some(s)
  {
    UnescapeEscapeThen(s, []);
    assert Escape(s) + [] == Escape(s) && s + [] == s;
  }

  /** Hexadecimal digits of either case are read. */
  lemma HexExactly(c: char, v: int)
    ensures HexValue(c) == Some(v) <==>
            0 <= v < 16 && (c == "0123456789abcdef"[v] || c == "0123456789ABCDEF"[v])
  {
  }

  ghost predicate LeftAlone(c: char) {
    'a' <= c <= 'z' || 'A' <= c <= 'Z' || '0' <= c <= '9' || c in "$_-"
  }

  lemma EscapeByteKeeps(c: char)
    requires c as int < 256
    ensures |EscapeByte(c)| >= 1 && (EscapeByte(c) == [c] <==> LeftAlone(c))
  {
  }

  lemma {:induction false} EscapeGrows(s: Bytes)
    ensures |Escape(s)| >= |s|
  {
    if s != [] { EscapeGrows(s[..|s| - 1]); }
  }

  ghost predicate AllLeftAlone(s: string) { forall i :: 0 <= i < |s| ==> LeftAlone(s[i]) }

  lemma AllLeftAloneSnoc(s: string)
    requires s != []
    ensures AllLeftAlone(s) <==> AllLeftAlone(s[..|s| - 1]) && LeftAlone(s[|s| - 1])
  {
  }

  /** Text is left alone by escaping exactly when it is letters, digits, "$", "_" and "-". */
  lemma {:induction false} EscapeKeepsExactly(s: Bytes)
    ensures Escape(s) == s <==> AllLeftAlone(s)
  {
    if s != [] {
      var init: Bytes, c := s[..|s| - 1], s[|s| - 1];
      EscapeKeepsExactly(init);
      EscapeStepKeeps(s, init, c);
      AllLeftAloneSnoc(s);
    }
  }

  lemma EscapeStepKeeps(s: Bytes, init: Bytes, c: char)
    requires s != [] && init == s[..|s| - 1] && c == s[|s| - 1]
    ensures Escape(s) == s <==> Escape(init) == init && LeftAlone(c)
  {
    var e: string, f: string := Escape(init), EscapeByte(c);
    assert Escape(s) == e + f;
    EscapeGrows(init);
    EscapeByteKeeps(c);
    LastApart(e, f, s, init, c);
  }

  lemma LastApart(e: string, f: string, s: string, init: string, c: char)
    requires s != [] && init == s[..|s| - 1] && c == s[|s| - 1] && |e| >= |init| && |f| >= 1
    ensures e + f == s <==> e == init && f == [c]
  {
    assert s == init + [c];
    if e + f == s {
      assert |e| == |init| && |f| == 1;
      assert e == (e + f)[..|e|] == init && f == (e + f)[|e|..] == [c];
    }
  }

  predicate IsUpper(c: char) { 'A' <= c <= 'Z' }

  predicate Plain(c: char) { IsLiteral(c) || c == '~' }

  lemma {:induction false} EscapedIsPlain(s: Bytes)
    ensures forall i :: 0 <= i < |Escape(s)| ==> Plain(Escape(s)[i])
    ensures (forall i :: 0 <= i < |s| ==> !IsUpper(s[i])) ==>
              forall i :: 0 <= i < |Escape(s)| ==> !IsUpper(Escape(s)[i])
    ensures s != [] ==> Escape(s) != []
  {
    if s != [] { EscapedIsPlain(s[..|s| - 1]); }
  }

  // ----- keywords -----

  /** What the code relies on from strings.ToLower: no ASCII capital is left, lower-case ASCII text
      is unchanged, and only the empty string becomes empty. */
  ghost predicate Lowers(lower: Bytes -> Bytes) {
    && (forall s: Bytes :: NoUpper(lower(s)))
    && (forall s: Bytes :: NoUpper(s) && (forall i :: 0 <= i < |s| ==> s[i] as int < 128) ==> lower(s) == s)
    && (forall s: Bytes :: lower(s) == [] <==> s == [])
  }

  ghost predicate NoUpper(s: Bytes) { forall i :: 0 <= i < |s| ==> !IsUpper(s[i]) }

  function TagToKeyword(lower: Bytes -> Bytes, name: Bytes, value: Bytes): (kw: Option<Bytes>)
  {
    if name == "" then None
    else
      var head := PREFIX + Escape(lower(name));
      var kw := if value != "" then head + ("/" + Escape(lower(value))) else head;
      if |kw| > 255 then None else Some(kw)
  }

  /** What is before the first '/' and what is after it. */
  function Segments(rest: Bytes): (r: (Bytes, Bytes))
  {
    var i := Index(rest, '/');
    if i >= 0 then (rest[..i], rest[i + 1..]) else (rest, "")
  }

  function KeywordToTag(lower: Bytes -> Bytes, keyword: Bytes): (r: Option<(Bytes, Bytes)>)
  {
    var kw := lower(keyword);
    if !IsTagKeyword(kw) then None
    else
      var rest := kw[|PREFIX|..];
      var name, value := Unescape(Segments(rest).0), Unescape(Segments(rest).1);
      if name.None? || name.value == "" || value.None? then None else Some((name.value, value.value))
  }

  /** The keyword grammar (jmap/jmapmail/keywords.go). */
  predicate IsValidKeyword(kw: Bytes) {
    0 < |kw| <= 255
    && forall i :: 0 <= i < |kw| ==> 0x21 <= kw[i] as int <= 0x7e && kw[i] !in "(){]%*\"\\"
  }

  /** The text after the prefix: an escaped name, and after a '/' an escaped value if there is one. */
  ghost function Body(name: Bytes, value: Bytes, hasValue: bool): Bytes {
    Escape(name) + if hasValue then "/" + Escape(value) else ""
  }

  lemma BodyShape(name: Bytes, value: Bytes, hasValue: bool)
    requires NoUpper(name) && NoUpper(value)
    ensures var b := Body(name, value, hasValue);
            && NoUpper(b)
            && (forall i :: 0 <= i < |b| ==> Plain(b[i]) || b[i] == '/')
            && (forall i :: 0 <= i < |b| ==> (b[i] == '/' <==> hasValue && i == |Escape(name)|))
  {
    EscapedIsPlain(name);
    EscapedIsPlain(value);
    var b, e, v := Body(name, value, hasValue), Escape(name), Escape(value);
    forall i | 0 <= i < |b|
      ensures !IsUpper(b[i]) && (Plain(b[i]) || b[i] == '/') && (b[i] == '/' <==> hasValue && i == |e|)
    {
      if i < |e| {
        assert b[i] == e[i];
      } else if i > |e| {
        assert b[i] == v[i - |e| - 1];
      }
    }
  }

  lemma KeywordIsBody(lower: Bytes -> Bytes, name: Bytes, value: Bytes)
    requires TagToKeyword(lower, name, value).Some?
    ensures TagToKeyword(lower, name, value).value == PREFIX + Body(lower(name), lower(value), value != "")
  {
    var n, tail := Escape(lower(name)), "/" + Escape(lower(value));
    assert PREFIX + n + tail == PREFIX + (n + tail);
    assert n + "" == n;
  }

  lemma PlainIsAllowed(c: char)
    requires Plain(c) || c == '/'
    ensures 0x21 <= c as int <= 0x7e && c !in "(){]%*\"\\"
  {
  }

  /** A produced keyword is a valid keyword with no '/' but the prefix's and the separator. */
  lemma KeywordIsValid(lower: Bytes -> Bytes, name: Bytes, value: Bytes)
    requires Lowers(lower) && TagToKeyword(lower, name, value).Some?
    ensures var kw := TagToKeyword(lower, name, value).value;
            && IsValidKeyword(kw) && NoUpper(kw)
            && forall i :: 0 <= i < |kw| ==>
                 (kw[i] == '/' <==> i == 4 || (value != "" && i == 5 + |Escape(lower(name))|))
  {
    KeywordIsBody(lower, name, value);
    assert NoUpper(lower(name)) && NoUpper(lower(value));
    PrefixedBodyIsAllowed(TagToKeyword(lower, name, value).value, lower(name), lower(value), value != "");
  }

  lemma PrefixedBodyIsAllowed(kw: Bytes, n: Bytes, v: Bytes, hasValue: bool)
    requires kw == PREFIX + Body(n, v, hasValue) && NoUpper(n) && NoUpper(v)
    ensures forall i :: 0 <= i < |kw| ==>
              && 0x21 <= kw[i] as int <= 0x7e && kw[i] !in "(){]%*\"\\" && !IsUpper(kw[i])
              && (kw[i] == '/' <==> i == 4 || (hasValue && i == 5 + |Escape(n)|))
  {
    var body := Body(n, v, hasValue);
    BodyShape(n, v, hasValue);
    forall i | 0 <= i < |kw|
      ensures 0x21 <= kw[i] as int <= 0x7e && kw[i] !in "(){]%*\"\\" && !IsUpper(kw[i])
      ensures kw[i] == '/' <==> i == 4 || (hasValue && i == 5 + |Escape(n)|)
    {
      PrefixedChar(kw, body, i);
      PlainIsAllowed(kw[i]);
    }
  }

  lemma PrefixedChar(kw: string, body: string, i: nat)
    requires kw == PREFIX + body && i < |kw|
    ensures i >= 5 ==> kw[i] == body[i - 5]
    ensures i < 5 ==> (Plain(kw[i]) || kw[i] == '/') && !IsUpper(kw[i]) && (kw[i] == '/' <==> i == 4)
  {
    if i < 5 { assert kw[i] == PREFIX[i]; }
  }

  /** Cutting the body at its first '/' separates the two segments. */
  lemma SplitBody(n: Bytes, v: Bytes, hasValue: bool)
    requires NoUpper(n) && NoUpper(v)
    ensures var b, i := Body(n, v, hasValue), Index(Body(n, v, hasValue), '/');
            if hasValue then i >= 0 && b[..i] == Escape(n) && b[i + 1..] == Escape(v)
            else i < 0 && b == Escape(n)
  {
    BodyShape(n, v, hasValue);
    var b := Body(n, v, hasValue);
    if hasValue {
      assert b[|Escape(n)|] == '/';
      assert Index(b, '/') == |Escape(n)|;
    }
  }

  /** Parsing a produced keyword gives back the lower-cased name and value. */
  lemma TagRoundTrip(lower: Bytes -> Bytes, name: Bytes, value: Bytes)
    requires Lowers(lower) && TagToKeyword(lower, name, value).Some?
    ensures KeywordToTag(lower, TagToKeyword(lower, name, value).value) == Some((lower(name), lower(value)))
  {
    var kw := TagToKeyword(lower, name, value).value;
    var n, v := lower(name), lower(value);
    KeywordIsValid(lower, name, value);
    assert lower(kw) == kw;
    KeywordIsBody(lower, name, value);
    ParseBody(lower, kw, n, v, value != "");
  }

  lemma ParseBody(lower: Bytes -> Bytes, kw: Bytes, n: Bytes, v: Bytes, hasValue: bool)
    requires lower(kw) == kw && kw == PREFIX + Body(n, v, hasValue)
    requires NoUpper(n) && NoUpper(v) && n != [] && (!hasValue ==> v == [])
    ensures KeywordToTag(lower, kw) == Some((n, v))
  {
    var rest := Body(n, v, hasValue);
    assert kw[|PREFIX|..] == rest && kw[..|PREFIX|] == PREFIX;
    EscapedIsPlain(n);
    SplitBody(n, v, hasValue);
    SegmentRoundTrip(n);
    SegmentRoundTrip(v);
  }

  /** A tag has a keyword exactly when it has a name and the keyword is not over 255 bytes long. */
  lemma TagFitsExactly(lower: Bytes -> Bytes, name: Bytes, value: Bytes)
    ensures TagToKeyword(lower, name, value).Some? <==>
            name != "" && 5 + |Escape(lower(name))| + (if value == "" then 0 else 1 + |Escape(lower(value))|) <= 255
  {
  }

  /** The keyword, in lower case, is the prefix, an escaped name that is not empty, and perhaps a "/" and
      an escaped value. */
  ghost predicate Spells(kw: Bytes, name: Bytes, value: Bytes) {
    exists first: Bytes, second: Bytes ::
      && '/' !in first && Unescape(first) == Some(name) && name != "" && Unescape(second) == Some(value)
      && (kw == "$tag/" + first + "/" + second || (kw == "$tag/" + first && second == ""))
  }

  /** Exactly which keywords are tags, and of what name and value; case does not matter. */
  lemma KeywordToTagExactly(lower: Bytes -> Bytes, kw: Bytes, name: Bytes, value: Bytes)
    ensures KeywordToTag(lower, kw) == Some((name, value)) <==> Spells(lower(kw), name, value)
  {
    var k := lower(kw);
    if KeywordToTag(lower, kw) == Some((name, value)) { ParsedIsSpelled(lower, kw, name, value); }
    if Spells(k, name, value) {
      var first: Bytes, second: Bytes :|
        && '/' !in first && Unescape(first) == Some(name) && name != "" && Unescape(second) == Some(value)
        && (k == "$tag/" + first + "/" + second || (k == "$tag/" + first && second == ""));
      SpelledIsParsed(lower, kw, first, second, k == "$tag/" + first + "/" + second);
    }
  }

  lemma ParsedIsSpelled(lower: Bytes -> Bytes, kw: Bytes, name: Bytes, value: Bytes)
    requires KeywordToTag(lower, kw) == Some((name, value))
    ensures Spells(lower(kw), name, value)
  {
    var k := lower(kw);
    var rest: Bytes := k[5..];
    assert k == k[..5] + rest;
    var (first, second) := Segments(rest);
    var i := Index(rest, '/');
    if i >= 0 {
      CutApart(rest, i);
      Joined(k, rest, first, second);
    }
    SpelledBy(k, name, value, first, second);
  }

  lemma CutApart(rest: string, i: nat)
    requires i < |rest| && rest[i] == '/'
    ensures rest == rest[..i] + "/" + rest[i + 1..]
  {
  }

  lemma Joined(k: Bytes, rest: Bytes, first: Bytes, second: Bytes)
    requires k == "$tag/" + rest && rest == first + "/" + second
    ensures k == "$tag/" + first + "/" + second
  {
  }

  lemma SpelledBy(k: Bytes, name: Bytes, value: Bytes, first: Bytes, second: Bytes)
    requires '/' !in first && Unescape(first) == Some(name) && name != "" && Unescape(second) == Some(value)
    requires k == "$tag/" + first + "/" + second || (k == "$tag/" + first && second == "")
    ensures Spells(k, name, value)
  {
  }

  lemma SpelledIsParsed(lower: Bytes -> Bytes, kw: Bytes, first: Bytes, second: Bytes, two: bool)
    requires lower(kw) == if two then "$tag/" + first + "/" + second else "$tag/" + first
    requires '/' !in first && (!two ==> second == "")
    requires Unescape(first).Some? && Unescape(first).value != "" && Unescape(second).Some?
    ensures KeywordToTag(lower, kw) == Some((Unescape(first).value, Unescape(second).value))
  {
    var k := lower(kw);
    assert first != "";
    if two {
      FirstSlash(k, first, second);
    } else {
      assert k[..5] == "$tag/" && k[5..] == first && Index(first, '/') < 0;
    }
  }

  lemma FirstSlash(k: string, first: string, second: string)
    requires k == "$tag/" + first + "/" + second && '/' !in first
    ensures |k| > 5 && k[..5] == "$tag/" && Index(k[5..], '/') == |first|
    ensures k[5..][..|first|] == first && k[5..][|first| + 1..] == second
  {
    var rest := k[5..];
    assert rest == first + "/" + second && rest[|first|] == '/';
    assert forall j :: 0 <= j < |first| ==> rest[j] == first[j];
  }

  /** Encoding is injective up to case. */
  lemma TagInjective(lower: Bytes -> Bytes, n: Bytes, v: Bytes, n': Bytes, v': Bytes)
    requires Lowers(lower) && TagToKeyword(lower, n, v).Some?
    ensures TagToKeyword(lower, n, v) == TagToKeyword(lower, n', v')
            <==> lower(n) == lower(n') && lower(v) == lower(v')
  {
    TagRoundTrip(lower, n, v);
    if TagToKeyword(lower, n', v').Some? { TagRoundTrip(lower, n', v'); }
  }
}
