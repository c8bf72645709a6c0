/** Mailbox and email ids (imap/convert.go). */
module MailIds {
  import opened GoStrings

  type Uint32 = x: int | 0 <= x < 0x1_0000_0000

  // ----- base64.RawURLEncoding -----

  type Sextet = v: int | 0 <= v < 64

  function Digit64(v: Sextet): (c: char)
  {
    if v < 26 then 'A' + v as char
    else if v < 52 then 'a' + (v - 26) as char
    else if v < 62 then '0' + (v - 52) as char
    else if v == 62 then '-'
    else '_'
  }

  predicate InAlphabet(c: char) {
    'A' <= c <= 'Z' || 'a' <= c <= 'z' || '0' <= c <= '9' || c == '-' || c == '_'
  }

  function Value64(c: char): (v: Sextet)
    requires InAlphabet(c)
    ensures Digit64(v) == c
  {
    if 'A' <= c <= 'Z' then c as int - 'A' as int
    else if 'a' <= c <= 'z' then c as int - 'a' as int + 26
    else if '0' <= c <= '9' then c as int - '0' as int + 52
    else if c == '-' then 62
    else 63
  }

  function ByteAt(b: Bytes, i: nat): (v: int)
    ensures 0 <= v < 256
  {
    if i < |b| then b[i] as int else 0
  }

  function Quad(x: int, y: int, z: int): (g: seq<Sextet>)
    requires 0 <= x < 256 && 0 <= y < 256 && 0 <= z < 256
    ensures |g| == 4
  {
    [x / 4, x % 4 * 16 + y / 16, y % 16 * 4 + z / 64, z % 64]
  }

  /** The bits of `b`, six at a time; a short last group is padded with zero bits. */
  function Sextets(b: Bytes): (v: seq<Sextet>)
  {
    if b == [] then []
    else
      var g := Quad(ByteAt(b, 0), ByteAt(b, 1), ByteAt(b, 2));
      if |b| < 3 then g[..|b| + 1] else g + Sextets(b[3..])
  }

  function SextetAt(v: seq<Sextet>, i: nat): (r: Sextet) { if i < |v| then v[i] else 0 }

  function Trio(p: Sextet, q: Sextet, t: Sextet, w: Sextet): (b: Bytes)
    ensures |b| == 3
  {
    [(p * 4 + q / 16) as char, (q % 16 * 16 + t / 4) as char, (t % 4 * 64 + w) as char]
  }

  /** Whole bytes out of six-bit groups; the unused low bits of a short last group are not
      inspected, and a last group of one sextet is an error. */
  function FromSextets(v: seq<Sextet>): (r: Option<Bytes>)
  {
    if v == [] then Some([])
    else if |v| == 1 then None
    else
      var b := Trio(v[0], v[1], SextetAt(v, 2), SextetAt(v, 3));
      if |v| < 4 then Some(b[..|v| - 1])
      else match FromSextets(v[4..])
        case None => None
        case Some(rest) => Some(b + rest)
  }

  function Encode64(b: Bytes): (s: string)
    ensures forall i :: 0 <= i < |s| ==> InAlphabet(s[i])
  {
    var v := Sextets(b);
    seq(|v|, i requires 0 <= i < |v| => Digit64(v[i]))
  }

  function DropLineBreaks(s: string): (r: string)
  {
    if s == [] then []
    else (if s[0] == '\r' || s[0] == '\n' then [] else [s[0]]) + DropLineBreaks(s[1..])
  }

  /** The decoder skips CR and LF and rejects every other character outside the alphabet. */
  function Decode64(text: string): (r: Option<Bytes>)
  {
    var s := DropLineBreaks(text);
    if exists i :: 0 <= i < |s| && !InAlphabet(s[i]) then None
    else FromSextets(seq(|s|, i requires 0 <= i < |s| => Value64(s[i])))
  }

  lemma TrioOfQuad(x: int, y: int, z: int)
    requires 0 <= x < 256 && 0 <= y < 256 && 0 <= z < 256
    ensures var g := Quad(x, y, z);
            && Trio(g[0], g[1], g[2], g[3]) == [x as char, y as char, z as char]
            && (z == 0 ==> g[3] == 0) && (y == 0 && z == 0 ==> g[2] == 0)
  {
  }

  lemma {:induction false} FromSextetsSextets(b: Bytes)
    ensures FromSextets(Sextets(b)) == Some(b)
  {
    if b != [] {
      var x, y, z := ByteAt(b, 0), ByteAt(b, 1), ByteAt(b, 2);
      var g, v := Quad(x, y, z), Sextets(b);
      TrioOfQuad(x, y, z);
      assert v[0] == g[0] && v[1] == g[1] && SextetAt(v, 2) == g[2] && SextetAt(v, 3) == g[3];
      if |b| > 2 {
        FromSextetsSextets(b[3..]);
        assert v[4..] == Sextets(b[3..]);
        assert b == [x as char, y as char, z as char] + b[3..];
      } else {
        assert b == [x as char, y as char, z as char][..|b|];
      }
    }
  }

  lemma Digit64Injective(v: Sextet)
    ensures InAlphabet(Digit64(v)) && Value64(Digit64(v)) == v
  {
  }

  lemma {:induction false} AlphabetHasNoLineBreaks(s: string)
    requires forall i :: 0 <= i < |s| ==> InAlphabet(s[i])
    ensures DropLineBreaks(s) == s
  {
    if s != [] { AlphabetHasNoLineBreaks(s[1..]); }
  }

  /** Section 5 of RFC 4648: the encoding loses nothing. */
  lemma Decode64Encode64(b: Bytes)
    ensures Decode64(Encode64(b)) == Some(b)
  {
    var s, v := Encode64(b), Sextets(b);
    AlphabetHasNoLineBreaks(s);
    forall i | 0 <= i < |v| ensures Value64(s[i]) == v[i] { Digit64Injective(v[i]); }
    assert seq(|s|, i requires 0 <= i < |s| => Value64(s[i])) == v;
    FromSextetsSextets(b);
  }

  // ----- UTF-8 -----

  predicate Continuation(c: char) { 0x80 <= c as int <= 0xBF }

  /** The length of the well-formed UTF-8 character at the head of `s`; 0 when there is none. */
  function Utf8Head(s: Bytes): (n: nat)
    ensures n <= |s|
  {
    if s == [] then 0
    else
      var a := s[0] as int;
      var b := if |s| > 1 then s[1] as int else 0;
      if a < 0x80 then 1
      else if 0xC2 <= a <= 0xDF then (if |s| > 1 && Continuation(s[1]) then 2 else 0)
      else if 0xE0 <= a <= 0xEF then
        (if |s| > 2 && Continuation(s[1]) && Continuation(s[2])
            && (a == 0xE0 ==> b >= 0xA0) && (a == 0xED ==> b <= 0x9F) then 3 else 0)
      else if 0xF0 <= a <= 0xF4 then
        (if |s| > 3 && Continuation(s[1]) && Continuation(s[2]) && Continuation(s[3])
            && (a == 0xF0 ==> b >= 0x90) && (a == 0xF4 ==> b <= 0x8F) then 4 else 0)
      else 0
  }

  predicate IsUtf8(s: Bytes)
    decreases |s|
  {
    s == [] || (Utf8Head(s) > 0 && IsUtf8(s[Utf8Head(s)..]))
  }

  // ----- mailbox ids -----

  /** The ids of the six folder names that have fixed ones. */
  function ReservedId(lowered: string): (id: Option<string>)
  {
    if lowered == "inbox" then Some("mb-inbox")
    else if lowered == "drafts" then Some("mb-drafts")
    else if lowered == "sent" then Some("mb-sent")
    else if lowered == "trash" then Some("mb-trash")
    else if lowered == "junk" then Some("mb-junk")
    else if lowered == "archive" then Some("mb-archive")
    else None
  }

  /** `lower` stands for strings.ToLower, which folds some non-ASCII runes to ASCII letters. */
  function MailboxIDForName(lower: Bytes -> Bytes, name: Bytes): (id: string)
  {
    match ReservedId(lower(name))
    case Some(id) => id
    case None => Encode64(name)
  }

  function NameForMailboxID(id: string): (name: Option<Bytes>)
  {
    if id == "mb-inbox" then Some("INBOX")
    else if id == "mb-drafts" then Some("Drafts")
    else if id == "mb-sent" then Some("Sent")
    else if id == "mb-trash" then Some("Trash")
    else if id == "mb-junk" then Some("Junk")
    else if id == "mb-archive" then Some("Archive")
    else Decode64(id)
  }

  lemma ReservedIdInjective(a: string, b: string)
    requires ReservedId(a).Some? && ReservedId(a) == ReservedId(b)
    ensures a == b
  {
  }

  lemma ReservedIdShape(a: string)
    requires ReservedId(a).Some?
    ensures HasPrefix(ReservedId(a).value, "mb-")
  {
  }

  /** Base64 text beginning "mb-" encodes a name whose first byte is 0x99. */
  lemma MbPrefixDecodes(b: Bytes)
    requires HasPrefix(Encode64(b), "mb-")
    ensures |b| > 0 && b[0] as int == 0x99
  {
    var s, v := Encode64(b), Sextets(b);
    assert s[0] == s[..3][0] == 'm' && s[1] == s[..3][1] == 'b';
    Digit64Injective(v[0]);
    Digit64Injective(v[1]);
    assert v[0] == 38 && v[1] == 27;
  }

  /** No UTF-8 name shares an id with a reserved folder, unless it lowercases to its name. */
  lemma Utf8AvoidsReserved(b: Bytes, lowered: string)
    requires IsUtf8(b) && ReservedId(lowered).Some?
    ensures Encode64(b) != ReservedId(lowered).value
  {
    ReservedIdShape(lowered);
    if Encode64(b) == ReservedId(lowered).value { MbPrefixDecodes(b); }
  }

  /** Two UTF-8 folder names share a mailbox id exactly when they are equal or both lowercase
      to the same reserved name. */
  lemma MailboxIdsFaithful(lower: Bytes -> Bytes, a: Bytes, b: Bytes)
    requires IsUtf8(a) && IsUtf8(b)
    ensures MailboxIDForName(lower, a) == MailboxIDForName(lower, b)
            <==> a == b || (lower(a) == lower(b) && ReservedId(lower(a)).Some?)
  {
    var ra, rb := ReservedId(lower(a)), ReservedId(lower(b));
    match (ra, rb)
    case (Some(_), Some(_)) =>
      if ra == rb { ReservedIdInjective(lower(a), lower(b)); }
    case (Some(_), None) => Utf8AvoidsReserved(b, lower(a));
    case (None, Some(_)) => Utf8AvoidsReserved(a, lower(b));
    case (None, None) =>
      Decode64Encode64(a);
      Decode64Encode64(b);
  }

  const NOT_UTF8: Bytes := ['\U{99}', '\U{bf}', '\U{a2}', '\U{9d}', '\U{ba}', '1']

  /** The UTF-8 hypothesis is needed: these six bytes have the id of INBOX. */
  lemma NonUtf8Collision(lower: Bytes -> Bytes)
    requires ReservedId(lower(NOT_UTF8)).None? && lower("INBOX") == "inbox"
    ensures !IsUtf8(NOT_UTF8)
    ensures MailboxIDForName(lower, NOT_UTF8) == MailboxIDForName(lower, "INBOX")
  {
    var tail := NOT_UTF8[3..];
    assert Sextets(tail) == [39, 27, 40, 49] by { assert tail[3..] == []; }
    assert Sextets(NOT_UTF8) == [38, 27, 62, 34] + [39, 27, 40, 49];
  }

  /** NameForMailboxID undoes MailboxIDForName on every UTF-8 name that is not reserved. */
  lemma NameForMailboxIDInverts(lower: Bytes -> Bytes, name: Bytes)
    requires IsUtf8(name) && ReservedId(lower(name)).None?
    ensures NameForMailboxID(MailboxIDForName(lower, name)) == Some(name)
  {
    Decode64Encode64(name);
    if HasPrefix(Encode64(name), "mb-") { MbPrefixDecodes(name); }
    OtherIdsDecode(Encode64(name));
  }

  lemma OtherIdsDecode(id: string)
    requires !HasPrefix(id, "mb-")
    ensures NameForMailboxID(id) == Decode64(id)
  {
    assert |id| >= 3 ==> id[..3] != "mb-";
  }

  const RESERVED := ["inbox", "drafts", "sent", "trash", "junk", "archive"]

  /** The id of a folder that lowercases to a reserved name is "mb-" and that name. */
  lemma ReservedNamesExactly(lower: Bytes -> Bytes, name: Bytes)
    ensures MailboxIDForName(lower, name) == if lower(name) in RESERVED then "mb-" + lower(name) else Encode64(name)
  {
  }

  /** What strings.ToLower does to ASCII text. */
  function AsciiLower(s: string): (r: string)
  {
    seq(|s|, i requires 0 <= i < |s| => if 'A' <= s[i] <= 'Z' then s[i] - 'A' + 'a' else s[i])
  }

  /** A reserved id stands for a spelling of its own name, which has that id again. */
  lemma ReservedIdsInvert(lower: Bytes -> Bytes, w: string)
    requires w in RESERVED
    requires forall s: Bytes :: (forall i :: 0 <= i < |s| ==> s[i] < '\U{80}') ==> lower(s) == AsciiLower(s)
    ensures NameForMailboxID("mb-" + w).Some? && AsciiLower(NameForMailboxID("mb-" + w).value) == w
    ensures MailboxIDForName(lower, NameForMailboxID("mb-" + w).value) == "mb-" + w
  {
    ReservedSpelling(w);
    ReservedNamesExactly(lower, NameForMailboxID("mb-" + w).value);
  }

  const SPELLED: seq<Bytes> := ["INBOX", "Drafts", "Sent", "Trash", "Junk", "Archive"]

  lemma ReservedSpelling(w: string)
    requires w in RESERVED
    ensures NameForMailboxID("mb-" + w).Some? && AsciiLower(NameForMailboxID("mb-" + w).value) == w
    ensures var n := NameForMailboxID("mb-" + w).value; forall i :: 0 <= i < |n| ==> n[i] < '\U{80}'
  {
    var k :| 0 <= k < |RESERVED| && RESERVED[k] == w;
    ReservedNamed(k);
    SpellingsLowered(k);
  }

  lemma ReservedNamed(k: nat)
    requires k < |RESERVED|
    ensures NameForMailboxID("mb-" + RESERVED[k]) == Some(SPELLED[k])
  {
    assert "mb-" + "inbox" == "mb-inbox" && "mb-" + "drafts" == "mb-drafts" && "mb-" + "sent" == "mb-sent";
    assert "mb-" + "trash" == "mb-trash" && "mb-" + "junk" == "mb-junk" && "mb-" + "archive" == "mb-archive";
  }

  lemma SpellingsLowered(k: nat)
    requires k < |RESERVED|
    ensures AsciiLower(SPELLED[k]) == RESERVED[k] && forall i :: 0 <= i < |SPELLED[k]| ==> SPELLED[k][i] < '\U{80}'
  {
    assert AsciiLower("INBOX") == "inbox" && AsciiLower("Drafts") == "drafts" && AsciiLower("Sent") == "sent";
    assert AsciiLower("Trash") == "trash" && AsciiLower("Junk") == "junk" && AsciiLower("Archive") == "archive";
  }

  // ----- email ids -----

  function Dec(n: nat): (s: string)
    ensures |s| > 0 && AllDigits(s) && DecValue(s) == n
    ensures s[0] == '0' ==> |s| == 1
  {
    var d := ['0' + (n % 10) as char];
    if n < 10 then d
    else
      var s := Dec(n / 10) + d;
      assert s[..|s| - 1] == Dec(n / 10);
      s
  }

  function EmailIDFor(mbID: string, uid: Uint32): (id: string) { mbID + "-" + Dec(uid) }

  /** strconv.ParseUint(s, 10, 32). */
  function ParseUint32(s: string): (r: Option<Uint32>)
  {
    if s == [] || !AllDigits(s) || DecValue(s) >= 0x1_0000_0000 then None else Some(DecValue(s))
  }

  function ParseEmailID(id: string): (r: Option<(string, Uint32)>)
  {
    var dash := LastIndex(id, '-');
    var at := if dash == -1 then LastIndex(id, ':') else dash;
    if at == -1 then None
    else match ParseUint32(id[at + 1..])
      case None => None
      case Some(uid) => Some((id[..at], uid))
  }

  /** The id is `m`, a separator and the decimal digits of `u`. The separator is '-', or ':' in an id
      without '-'. */
  ghost predicate Reads(id: string, m: string, u: Uint32) {
    exists digits: string ::
      && digits != "" && AllDigits(digits) && DecValue(digits) == u
      && (id == m + "-" + digits || (id == m + ":" + digits && '-' !in id))
  }

  /** Exactly which ids are accepted, and as what. */
  lemma ParseEmailIDExactly(id: string, m: string, u: Uint32)
    ensures ParseEmailID(id) == Some((m, u)) <==> Reads(id, m, u)
  {
    if ParseEmailID(id) == Some((m, u)) { AcceptedReads(id, m, u); }
    if Reads(id, m, u) {
      var digits: string :|
        && digits != "" && AllDigits(digits) && DecValue(digits) == u
        && (id == m + "-" + digits || (id == m + ":" + digits && '-' !in id));
      SeparatorFound(id, m, digits);
    }
  }

  lemma AcceptedReads(id: string, m: string, u: Uint32)
    requires ParseEmailID(id) == Some((m, u))
    ensures Reads(id, m, u)
  {
    var digits := id[|m| + 1..];
    assert id == m + [id[|m|]] + digits;
    assert digits != "" && AllDigits(digits) && DecValue(digits) == u;
  }

  lemma SeparatorFound(id: string, m: string, digits: string)
    requires AllDigits(digits) && (id == m + "-" + digits || (id == m + ":" + digits && '-' !in id))
    ensures id[|m| + 1..] == digits && id[..|m|] == m && LastIndex(id, id[|m|]) == |m|
    ensures id[|m|] == '-' || (id[|m|] == ':' && LastIndex(id, '-') == -1)
  {
    forall j | |m| < j < |id| ensures id[j] == digits[j - |m| - 1] && IsDigit(id[j]) {}
  }

  /** Parsing recovers both parts although the mailbox id may itself contain '-'. */
  lemma ParseEmailIDRoundTrip(mbID: string, uid: Uint32)
    ensures ParseEmailID(EmailIDFor(mbID, uid)) == Some((mbID, uid))
  {
    var id, d := EmailIDFor(mbID, uid), Dec(uid);
    assert id[|mbID|] == '-' && id[|mbID| + 1..] == d && id[..|mbID|] == mbID;
    assert forall j :: |mbID| < j < |id| ==> id[j] == d[j - |mbID| - 1];
    assert LastIndex(id, '-') == |mbID|;
  }

  lemma EmailIDForInjective(m: string, u: Uint32, m': string, u': Uint32)
    requires EmailIDFor(m, u) == EmailIDFor(m', u')
    ensures m == m' && u == u'
  {
    ParseEmailIDRoundTrip(m, u);
    ParseEmailIDRoundTrip(m', u');
  }

  lemma DecSnoc(n: nat, d: nat)
    requires n > 0 && d < 10
    ensures Dec(n * 10 + d) == Dec(n) + ['0' + d as char]
  {
    assert (n * 10 + d) / 10 == n && (n * 10 + d) % 10 == d;
  }

  lemma {:induction false} DecIsCanonical(s: string)
    requires s != [] && AllDigits(s) && (s[0] == '0' ==> |s| == 1)
    ensures Dec(DecValue(s)) == s
    ensures s[0] != '0' ==> DecValue(s) > 0
  {
    var n := |s| - 1;
    var d := s[n] as int - '0' as int;
    assert '0' + d as char == s[n];
    if n > 0 {
      DecIsCanonical(s[..n]);
      DecSnoc(DecValue(s[..n]), d);
      assert s == s[..n] + [s[n]];
    } else {
      assert DecValue(s) == d && s == [s[n]];
    }
  }

  /** An accepted id is the one EmailIDFor prints exactly when it uses '-' and its number has no
      leading zero; "x:7" and "x-07" are accepted and print differently. */
  lemma ParsedIdReprints(id: string)
    requires ParseEmailID(id).Some?
    ensures var (m, u) := ParseEmailID(id).value;
            EmailIDFor(m, u) == id
            <==> '-' in id && (id[|m| + 1] == '0' ==> |m| + 2 == |id|)
  {
    var (m, u) := ParseEmailID(id).value;
    var printed := EmailIDFor(m, u);
    assert printed[|m|] == '-' && printed[|m| + 1..] == Dec(u);
    if LastIndex(id, '-') >= 0 {
      var digits := id[|m| + 1..];
      assert id == m + "-" + digits && u == DecValue(digits);
      if digits[0] == '0' ==> |digits| == 1 { DecIsCanonical(digits); }
    }
  }
}
