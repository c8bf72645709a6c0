/** normalizeCRLF (smtp/outbound.go): the line endings of a message put on the wire
    (section 4.1.1.4 of RFC 5321). */
module Crlf {
  import opened GoStrings

  /** strings.ReplaceAll for a non-empty pattern. */
  function ReplaceAll(s: string, pattern: string, with: string): (r: string)
    requires pattern != []
    decreases |s|
  {
    if s == [] then []
    else if HasPrefix(s, pattern) then with + ReplaceAll(s[|pattern|..], pattern, with)
    else [s[0]] + ReplaceAll(s[1..], pattern, with)
  }

  function NormalizeCRLF(raw: string): (body: string)
  {
    var lf := ReplaceAll(raw, "\r\n", "\n");
    var lines := ReplaceAll(lf, "\r", "\n");
    var body := ReplaceAll(lines, "\n", "\r\n");
    if HasSuffix(body, "\r\n") then body else body + "\r\n"
  }

  // ----- reference definitions -----

  /** The text with each line break, CRLF, CR or LF, read as one LF. */
  function LfNormal(s: string): (r: string)
  {
    if s == [] then []
    else if s[0] == '\r' then "\n" + LfNormal(if |s| > 1 && s[1] == '\n' then s[2..] else s[1..])
    else [s[0]] + LfNormal(s[1..])
  }

  /** Every CR is followed by LF and every LF is preceded by CR. */
  ghost predicate Paired(s: string) {
    && (forall i :: 0 <= i < |s| && s[i] == '\r' ==> i + 1 < |s| && s[i + 1] == '\n')
    && (forall i :: 0 <= i < |s| && s[i] == '\n' ==> i > 0 && s[i - 1] == '\r')
  }

  ghost predicate Canonical(s: string) { Paired(s) && HasSuffix(s, "\r\n") }

  function WithFinalNewline(s: string): string { if HasSuffix(s, "\n") then s else s + "\n" }

  function Wire(c: char): string { if c == '\n' then "\r\n" else [c] }

  /** Each LF written as CRLF. */
  function Expand(s: string): (r: string)
  {
    if s == [] then [] else Wire(s[0]) + Expand(s[1..])
  }

  // ----- the three replacements -----

  lemma {:induction false} ReplacingLfExpands(s: string)
    ensures ReplaceAll(s, "\n", "\r\n") == Expand(s)
  {
    if s != [] {
      ReplacingLfExpands(s[1..]);
      assert HasPrefix(s, "\n") <==> s[0] == '\n';
    }
  }

  lemma {:induction false} FirstTwoReplacements(s: string)
    ensures ReplaceAll(ReplaceAll(s, "\r\n", "\n"), "\r", "\n") == LfNormal(s)
    decreases |s|
  {
    if s == [] {
    } else if HasPrefix(s, "\r\n") {
      assert s[0] == s[..2][0] && s[1] == s[..2][1];
      var t := ReplaceAll(s[2..], "\r\n", "\n");
      FirstTwoReplacements(s[2..]);
      assert ("\n" + t)[1..] == t && !HasPrefix("\n" + t, "\r");
    } else {
      assert |s| > 1 ==> s[..2] == [s[0], s[1]];
      var t := ReplaceAll(s[1..], "\r\n", "\n");
      FirstTwoReplacements(s[1..]);
      assert ([s[0]] + t)[1..] == t;
      assert HasPrefix([s[0]] + t, "\r") <==> s[0] == '\r';
    }
  }

  lemma {:induction false} LfNormalHasNoCr(s: string)
    ensures '\r' !in LfNormal(s)
    decreases |s|
  {
    if s == [] {
    } else if s[0] == '\r' {
      LfNormalHasNoCr(if |s| > 1 && s[1] == '\n' then s[2..] else s[1..]);
    } else {
      LfNormalHasNoCr(s[1..]);
    }
  }

  lemma PairedConcat(a: string, b: string)
    requires Paired(a) && Paired(b)
    ensures Paired(a + b)
  {
    var t := a + b;
    forall i | 0 <= i < |t| && t[i] == '\r' ensures i + 1 < |t| && t[i + 1] == '\n' {
      if i >= |a| { assert b[i - |a|] == '\r'; } else { assert a[i] == '\r'; }
    }
    forall i | 0 <= i < |t| && t[i] == '\n' ensures i > 0 && t[i - 1] == '\r' {
      if i >= |a| { assert b[i - |a|] == '\n'; } else { assert a[i] == '\n'; }
    }
  }

  lemma {:induction false} ExpandPaired(s: string)
    requires '\r' !in s
    ensures Paired(Expand(s))
  {
    if s != [] {
      ExpandPaired(s[1..]);
      PairedConcat(Wire(s[0]), Expand(s[1..]));
    }
  }

  lemma {:induction false} ExpandLast(s: string)
    requires s != []
    ensures Expand(s) == Expand(s[..|s| - 1]) + Wire(s[|s| - 1])
  {
    if |s| == 1 {
      assert Expand(s[1..]) == [] && s[..0] == [];
    } else {
      ExpandLast(s[1..]);
      assert s[..|s| - 1][1..] == s[1..][..|s| - 2];
    }
  }

  lemma SuffixIsLast(s: string, c: char)
    ensures HasSuffix(s, [c]) <==> s != [] && s[|s| - 1] == c
  {
    if s != [] { assert s[|s| - 1..] == [s[|s| - 1]]; }
  }

  lemma ExpandEnd(s: string)
    requires '\r' !in s
    ensures HasSuffix(Expand(s), "\r\n") <==> HasSuffix(s, "\n")
  {
    SuffixIsLast(s, '\n');
    ExpandPaired(s);
    PairedEnd(Expand(s));
    if s != [] {
      ExpandLast(s);
      var wire := Wire(s[|s| - 1]);
      assert Expand(s)[|Expand(s)| - 1] == wire[|wire| - 1];
    }
  }

  /** In paired text a final LF is a final CRLF. */
  lemma PairedEnd(s: string)
    requires Paired(s)
    ensures HasSuffix(s, "\r\n") <==> s != [] && s[|s| - 1] == '\n'
  {
    if s != [] && s[|s| - 1] == '\n' { assert s[|s| - 2..] == "\r\n"; }
    if HasSuffix(s, "\r\n") { assert s[|s| - 2..][1] == '\n'; }
  }

  lemma {:induction false} LfNormalExpand(s: string)
    requires '\r' !in s
    ensures LfNormal(Expand(s)) == s
  {
    if s != [] {
      LfNormalExpand(s[1..]);
      var rest := Expand(s[1..]);
      if s[0] == '\n' { assert ("\r\n" + rest)[2..] == rest; } else { assert ([s[0]] + rest)[1..] == rest; }
    }
  }

  lemma {:induction false} ExpandLfNormal(s: string)
    requires Paired(s)
    ensures Expand(LfNormal(s)) == s
    decreases |s|
  {
    if s != [] {
      if s[0] == '\r' {
        assert s[1] == '\n';
        PairedTail(s, 2);
        ExpandLfNormal(s[2..]);
        assert ("\n" + LfNormal(s[2..]))[1..] == LfNormal(s[2..]);
      } else {
        assert s[0] != '\n';
        PairedTail(s, 1);
        ExpandLfNormal(s[1..]);
        assert ([s[0]] + LfNormal(s[1..]))[1..] == LfNormal(s[1..]);
      }
    }
  }

  lemma PairedTail(s: string, k: nat)
    requires Paired(s) && 0 < k <= |s| && s[k - 1] != '\r'
    ensures Paired(s[k..])
  {
    var t := s[k..];
    forall i | 0 <= i < |t| && t[i] == '\r' ensures i + 1 < |t| && t[i + 1] == '\n' { assert s[i + k] == '\r'; }
    forall i | 0 <= i < |t| && t[i] == '\n' ensures i > 0 && t[i - 1] == '\r' {
      assert s[i + k] == '\n' && s[i + k - 1] == '\r';
    }
  }

  // ----- the canonical form -----

  /** Normalising is expanding the LF-normal text with a final newline. */
  lemma NormalizeIsExpand(raw: string)
    ensures NormalizeCRLF(raw) == Expand(WithFinalNewline(LfNormal(raw)))
  {
    var t := LfNormal(raw);
    FirstTwoReplacements(raw);
    ReplacingLfExpands(t);
    LfNormalHasNoCr(raw);
    ExpandEnd(t);
    ExpandLast(t + "\n");
    assert (t + "\n")[..|t|] == t;
  }

  /** The output is canonical and differs from the input only in how lines end. */
  lemma NormalizeCanonical(raw: string)
    ensures Canonical(NormalizeCRLF(raw))
    ensures LfNormal(NormalizeCRLF(raw)) == WithFinalNewline(LfNormal(raw))
  {
    NormalizeIsExpand(raw);
    LfNormalHasNoCr(raw);
    var t := WithFinalNewline(LfNormal(raw));
    assert HasSuffix(LfNormal(raw) + "\n", "\n");
    ExpandPaired(t);
    ExpandEnd(t);
    LfNormalExpand(t);
  }

  /** Canonical messages are exactly the ones normalising leaves alone. */
  lemma CanonicalIsFixed(s: string)
    ensures NormalizeCRLF(s) == s <==> Canonical(s)
  {
    NormalizeCanonical(s);
    if Canonical(s) {
      NormalizeIsExpand(s);
      ExpandLfNormal(s);
      LfNormalHasNoCr(s);
      ExpandEnd(LfNormal(s));
    }
  }

  lemma NormalizeIdempotent(raw: string)
    ensures NormalizeCRLF(NormalizeCRLF(raw)) == NormalizeCRLF(raw)
  {
    NormalizeCanonical(raw);
    CanonicalIsFixed(NormalizeCRLF(raw));
  }

  /** Two messages reach the wire alike exactly when they have the same lines. */
  lemma SameLinesSameWire(a: string, b: string)
    ensures NormalizeCRLF(a) == NormalizeCRLF(b)
            <==> WithFinalNewline(LfNormal(a)) == WithFinalNewline(LfNormal(b))
  {
    NormalizeIsExpand(a);
    NormalizeIsExpand(b);
    NormalizeCanonical(a);
    NormalizeCanonical(b);
  }
}
