/** Ticker symbols of the Indonesia Stock Exchange as the page handles
    them: a basket symbol is a code followed by the exchange suffix ".JK";
    the watchlist shows the code with the suffix removed, and the detail
    view turns a typed code back into a full symbol. */
module Symbols {

  /** The exchange suffix the market-data source expects. */
  const Suffix: string := ".JK"

  /** The ten recommended issuers the watchlist ranks. */
  const EmitenList: seq<string> := [
    "BBRI.JK", "TLKM.JK", "ASII.JK", "ADRO.JK", "GOTO.JK",
    "BMRI.JK", "BBNI.JK", "UNTR.JK", "AMRT.JK", "BRIS.JK"
  ]

  /** The label shown for a symbol: every occurrence of ".JK" removed,
      scanning left to right without overlap, as Python's
      `str.replace(".JK", "")` does. */
  function RemoveJK(s: string): (r: string)
    ensures |r| <= |s|
    ensures (|s| - |r|) % 3 == 0
    ensures '.' !in s ==> r == s
  {
    if |s| < 3 then s
    else if s[..3] == Suffix then
      assert s[0] == '.' && '.' in s;
      RemoveJK(s[3..])
    else [s[0]] + RemoveJK(s[1..])
  }

  /** An occurrence of the suffix splits the label: what comes before it
      and what comes after it are cleaned separately, and the occurrence
      itself disappears. No occurrence can straddle either boundary. */
  lemma {:induction false} RemoveJKSplit(a: string, b: string)
    ensures RemoveJK(a + Suffix + b) == RemoveJK(a) + RemoveJK(b)
  {
    if |a| == 0 {
      assert a + Suffix + b == Suffix + b;
      SuffixFirst(b);
    } else if |a| >= 3 && a[..3] == Suffix {
      SplitTail(a, b);
      RemoveJKSplit(a[3..], b);
      DropFirst(a);
    } else {
      SplitStep(a, b);
      RemoveJKSplit(a[1..], b);
      KeepFirst(a);
    }
  }

  /** A leading occurrence is removed. */
  lemma DropFirst(a: string)
    requires |a| >= 3 && a[..3] == Suffix
    ensures RemoveJK(a) == RemoveJK(a[3..])
  {
  }

  /** A string that does not start with the suffix keeps its first
      character. */
  lemma KeepFirst(a: string)
    requires |a| > 0 && !(|a| >= 3 && a[..3] == Suffix)
    ensures RemoveJK(a) == [a[0]] + RemoveJK(a[1..])
  {
    if |a| < 3 {
      assert RemoveJK(a[1..]) == a[1..];
      assert [a[0]] + a[1..] == a;
    }
  }

  lemma SuffixFirst(b: string)
    ensures RemoveJK(Suffix + b) == RemoveJK(b)
  {
    var s := Suffix + b;
    assert s[..3] == Suffix;
    assert s[3..] == b;
  }

  /** A leading occurrence in `a` is removed before the boundary. */
  lemma SplitTail(a: string, b: string)
    requires |a| >= 3 && a[..3] == Suffix
    ensures RemoveJK(a + Suffix + b) == RemoveJK(a[3..] + Suffix + b)
  {
    var s := a + Suffix + b;
    assert s[..3] == a[..3];
    assert s[3..] == a[3..] + Suffix + b;
  }

  /** When `a` does not start with the suffix, neither does `a + Suffix + b`,
      so its first character is kept. */
  lemma SplitStep(a: string, b: string)
    requires |a| > 0 && !(|a| >= 3 && a[..3] == Suffix)
    ensures RemoveJK(a + Suffix + b) == [a[0]] + RemoveJK(a[1..] + Suffix + b)
  {
    var s := a + Suffix + b;
    assert s[0] == a[0];
    assert s[..3] != Suffix by {
      if |a| == 1 {
        assert s[1] == '.';
      } else if |a| == 2 {
        assert s[2] == '.';
      } else {
        assert s[..3] == a[..3];
      }
    }
    assert s[1..] == a[1..] + Suffix + b;
  }

  /** Appending the suffix adds nothing to the label. */
  lemma RemoveJKDropsSuffix(a: string)
    ensures RemoveJK(a + Suffix) == RemoveJK(a)
  {
    RemoveJKSplit(a, []);
    assert a + Suffix + [] == a + Suffix;
  }

  /** The suffix occurs in `s` at position `i`. */
  predicate SuffixAt(s: string, i: int) {
    0 <= i <= |s| - 3 && s[i] == '.' && s[i + 1] == 'J' && s[i + 2] == 'K'
  }

  /** A symbol without any occurrence of the suffix is its own label. */
  lemma {:induction false} RemoveJKNoOccurrence(s: string)
    requires forall i :: !SuffixAt(s, i)
    ensures RemoveJK(s) == s
  {
    if |s| >= 3 {
      assert !SuffixAt(s, 0);
      assert s[..3] != Suffix;
      forall j ensures !SuffixAt(s[1..], j) {
        assert !SuffixAt(s, j + 1);
      }
      RemoveJKNoOccurrence(s[1..]);
      assert [s[0]] + s[1..] == s;
    }
  }

  /** ASCII upper-casing of one character, as `str.upper` does for ASCII. */
  function UpperChar(c: char): (u: char)
    ensures !('a' <= u <= 'z')
    ensures 'a' <= c <= 'z' ==> u as int == c as int - 32
    ensures !('a' <= c <= 'z') ==> u == c
  {
    if 'a' <= c <= 'z' then (c as int - 32) as char else c
  }

  /** The typed code upper-cased. */
  function Upper(s: string): (r: string)
    ensures |r| == |s|
    ensures forall i :: 0 <= i < |s| ==> r[i] == UpperChar(s[i])
  {
    if s == [] then [] else [UpperChar(s[0])] + Upper(s[1..])
  }

  predicate NoLowerCase(s: string) {
    forall i :: 0 <= i < |s| ==> !('a' <= s[i] <= 'z')
  }

  /** Upper-casing leaves no lower-case letter, so a second upper-casing
      changes nothing. */
  lemma UpperIdempotent(s: string)
    ensures NoLowerCase(Upper(s))
    ensures Upper(Upper(s)) == Upper(s)
  {
  }

  lemma UpperOfUpper(s: string)
    requires NoLowerCase(s)
    ensures Upper(s) == s
  {
  }

  /** The symbol the detail view downloads for a typed code: upper-cased,
      then the exchange suffix appended. */
  function DetailSymbol(typed: string): (full: string)
    ensures |full| == |typed| + 3
    ensures forall i :: 0 <= i < |typed| ==> full[i] == UpperChar(typed[i])
    ensures full[|typed|..] == Suffix
    ensures NoLowerCase(full)
  {
    Upper(typed) + Suffix
  }

  /** A code made of upper-case letters and digits. */
  predicate IsCode(code: string) {
    forall i :: 0 <= i < |code| ==> 'A' <= code[i] <= 'Z' || '0' <= code[i] <= '9'
  }

  /** A basket symbol in the form the page expects: a code and the suffix. */
  predicate IsJakartaSymbol(t: string) {
    |t| >= 3 && t[|t| - 3..] == Suffix && IsCode(t[..|t| - 3])
  }

  /** Typing the label of a well-formed basket symbol into the detail view
      gives back the basket symbol itself. */
  lemma DetailSymbolOfLabel(t: string)
    requires IsJakartaSymbol(t)
    ensures DetailSymbol(RemoveJK(t)) == t
  {
    var code := t[..|t| - 3];
    assert t == code + Suffix;
    CodeRoundTrip(code);
  }

  lemma CodeRoundTrip(code: string)
    requires IsCode(code)
    ensures RemoveJK(code + Suffix) == code
    ensures DetailSymbol(code) == code + Suffix
  {
    RemoveJKDropsSuffix(code);
    CodeHasNoDot(code);
    CodeIsUpper(code);
    UpperOfUpper(code);
  }

  lemma CodeHasNoDot(code: string)
    requires IsCode(code)
    ensures '.' !in code
  {
  }

  lemma CodeIsUpper(code: string)
    requires IsCode(code)
    ensures NoLowerCase(code)
  {
  }

  /** Every symbol of the recommended basket is well formed. */
  lemma EmitenListWellFormed()
    ensures forall t :: t in EmitenList ==> IsJakartaSymbol(t)
  {
  }
}
