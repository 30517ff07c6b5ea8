/**
 * The file-name stem the downloader derives from a document label:
 * `sanitize_filename(label.strip().replace(" ", ""))`.
 */
module PdfName {
  import opened Sanitizer

  /**
   * The characters Python's `str.strip()` removes: those for which `str.isspace()` holds
   * (ASCII tab to carriage return, the four information separators, space, NEL, no-break
   * space and the Unicode space separators, line and paragraph separators).
   */
  predicate IsPyWhitespace(c: char) {
    || ('\t' <= c <= '\r')
    || ('\U{1C}' <= c <= '\U{1F}')
    || c == ' ' || c == '\U{85}' || c == '\U{A0}' || c == '\U{1680}'
    || ('\U{2000}' <= c <= '\U{200A}')
    || c == '\U{2028}' || c == '\U{2029}' || c == '\U{202F}' || c == '\U{205F}' || c == '\U{3000}'
  }

  predicate AllWhitespace(s: string) {
    forall i :: 0 <= i < |s| ==> IsPyWhitespace(s[i])
  }

  /** `str.lstrip()` scans forward from `i` to the first character that is not whitespace. */
  function LeadEnd(s: string, i: nat): (k: nat)
    requires i <= |s|
    ensures i <= k <= |s|
    ensures forall j :: i <= j < k ==> IsPyWhitespace(s[j])
    ensures k < |s| ==> !IsPyWhitespace(s[k])
    decreases |s| - i
  {
    if i < |s| && IsPyWhitespace(s[i]) then LeadEnd(s, i + 1) else i
  }

  /** `str.rstrip()` scans backward from `e` to just after the last character that is not whitespace. */
  function TrailStart(s: string, e: nat): (k: nat)
    requires e <= |s|
    ensures k <= e
    ensures forall j :: k <= j < e ==> IsPyWhitespace(s[j])
    ensures k > 0 ==> !IsPyWhitespace(s[k - 1])
  {
    if e > 0 && IsPyWhitespace(s[e - 1]) then TrailStart(s, e - 1) else e
  }

  /** Where the stripped text starts inside the original. */
  function StripStart(s: string): nat {
    LeadEnd(s, 0)
  }

  /** `str.strip()`: the text between the leading and the trailing whitespace. */
  function Strip(s: string): (r: string)
    ensures |r| <= |s|
    ensures |r| > 0 ==> !IsPyWhitespace(r[0]) && !IsPyWhitespace(r[|r| - 1])
    ensures |r| == 0 <==> AllWhitespace(s)
  {
    var a, b := LeadEnd(s, 0), TrailStart(s, |s|);
    if a < b then s[a..b] else ""
  }

  /** `strip` keeps an infix of its input and removes only whitespace on either side of it. */
  lemma StripIsInfix(s: string)
    ensures var k, r := StripStart(s), Strip(s);
      && k + |r| <= |s|
      && r == s[k..k + |r|]
      && (forall i :: 0 <= i < k ==> IsPyWhitespace(s[i]))
      && (forall i :: k + |r| <= i < |s| ==> IsPyWhitespace(s[i]))
  {
  }

  /** `str.replace(" ", "")`: every ASCII space removed, every other character kept in order. */
  function RemoveSpaces(s: string): (r: string)
    ensures ' ' !in r
    ensures |r| <= |s|
    ensures forall c :: c != ' ' ==> multiset(r)[c] == multiset(s)[c]
  {
    if |s| == 0 then ""
    else
      assert s == [s[0]] + s[1..];
      if s[0] == ' ' then RemoveSpaces(s[1..]) else [s[0]] + RemoveSpaces(s[1..])
  }

  /** Removing spaces distributes over concatenation, so it acts character by character. */
  lemma {:induction false} RemoveSpacesConcat(a: string, b: string)
    ensures RemoveSpaces(a + b) == RemoveSpaces(a) + RemoveSpaces(b)
    decreases |a|
  {
    if |a| == 0 {
      assert a + b == b;
    } else {
      assert (a + b)[1..] == a[1..] + b;
      RemoveSpacesConcat(a[1..], b);
    }
  }

  /** The stem a label yields; the downloader stores it as `stem + ".pdf"`. */
  function DeriveName(text: string): (r: string)
    ensures ' ' !in r
    ensures NoForbidden(r)
    ensures |r| <= |text|
  {
    var t := RemoveSpaces(Strip(text));
    var r := Sanitize(t);
    assert ' ' !in r by {
      if ' ' in r {
        SanitizeKeepsCharacters(t, 0, ' ');
      }
    }
    r
  }

  /** Only the ASCII space is removed inside the label: a tab survives. */
  lemma DeriveNameKeepsTab()
    ensures DeriveName("a\tb") == "a\tb"
  {
    var s := "a\tb";
    StripKeepsTab();
    RemoveSpacesKeepsTab();
    assert NoForbidden(s);
    SanitizeKeepsSafe(s);
  }

  lemma StripKeepsTab()
    ensures Strip("a\tb") == "a\tb"
  {
    var s := "a\tb";
    assert LeadEnd(s, 0) == 0;
    assert TrailStart(s, 3) == 3;
    assert s[0..3] == s;
  }

  lemma RemoveSpacesKeepsTab()
    ensures RemoveSpaces("a\tb") == "a\tb"
  {
    var a, t, b := "a", "\t", "b";
    RemoveSpacesConcat(a, t);
    RemoveSpacesConcat(a + t, b);
    assert RemoveSpaces(a) == a && RemoveSpaces(t) == t && RemoveSpaces(b) == b;
    assert a + t + b == "a\tb";
  }

  lemma StripExample()
    ensures Strip(" a b/c ") == "a b/c"
  {
    var s := " a b/c ";
    assert LeadEnd(s, 1) == 1;
    assert TrailStart(s, 6) == 6;
    assert s[1..6] == "a b/c";
  }

  lemma RemoveSpacesExample()
    ensures RemoveSpaces("a b/c") == "ab/c"
  {
    var s := "a b/c";
    assert s[1..] == " b/c" && s[1..][1..] == "b/c";
    assert RemoveSpaces("b/c") == "b/c" by {
      assert "b/c"[1..] == "/c" && "/c"[1..] == "c" && "c"[1..] == "";
    }
  }

  lemma SanitizeExample()
    ensures Sanitize("ab/c") == "ab_c"
  {
    var s := "ab/c";
    assert SanitizeFrom(s, 3) == "c";
    assert RunEnd(s, 2) == 3;
    assert SanitizeFrom(s, 2) == "_c";
    assert SanitizeFrom(s, 1) == "b_c";
  }

  /** Spaces go, whether around or inside the label; a slash becomes an underscore. */
  lemma DeriveNameExample()
    ensures DeriveName(" a b/c ") == "ab_c"
  {
    StripExample();
    RemoveSpacesExample();
    SanitizeExample();
  }
}
