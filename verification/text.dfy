/**
 Python's string primitives the validators rely on (`str.strip`, `str.lower`,
 `str.title`, `str.isdigit`, `str.islower`), restricted to ASCII: characters
 outside ASCII are treated as caseless, non-digit and non-space.
 */
module Text {

  type String = seq<char>

  /** `str.isspace` on ASCII: space, tab through carriage return, and the four
      information separators 0x1C..0x1F, which Python also counts as whitespace. */
  predicate IsSpace(c: char) {
    c == ' ' || (9 <= c as int <= 13) || (28 <= c as int <= 31)
  }

  predicate IsUpperChar(c: char) { 'A' <= c <= 'Z' }

  predicate IsLowerChar(c: char) { 'a' <= c <= 'z' }

  /** A cased character in Python's sense; on ASCII, exactly the letters. */
  predicate IsLetter(c: char) { IsUpperChar(c) || IsLowerChar(c) }

  predicate IsDigit(c: char) { '0' <= c <= '9' }

  /** Upper-cases a lower-case letter and leaves every other character alone. */
  function ToUpper(c: char): (u: char)
    ensures IsLetter(u) == IsLetter(c) && !IsLowerChar(u)
    ensures !IsLetter(c) ==> u == c
  {
    if IsLowerChar(c) then (c as int - 32) as char else c
  }

  /** Lower-cases an upper-case letter and leaves every other character alone. */
  function ToLower(c: char): (l: char)
    ensures IsLetter(l) == IsLetter(c) && !IsUpperChar(l)
    ensures !IsLetter(c) ==> l == c
  {
    if IsUpperChar(c) then (c as int + 32) as char else c
  }

  /** Changing the case of a letter twice lands on the same letter. */
  lemma CaseRoundTrip(c: char)
    ensures IsLowerChar(c) ==> ToLower(ToUpper(c)) == c
    ensures IsUpperChar(c) ==> ToUpper(ToLower(c)) == c
    ensures ToUpper(ToLower(c)) == ToUpper(c) && ToLower(ToUpper(c)) == ToLower(c)
  {
  }

  /** `str.lower`: every capital becomes its small letter, every other
      character is kept, and no capital is left. */
  function Lower(s: String): (r: String)
    ensures |r| == |s|
    ensures forall i {:trigger r[i]} :: 0 <= i < |s| ==>
              && !IsUpperChar(r[i])
              && (IsUpperChar(s[i]) ==> IsLowerChar(r[i]) && ToUpper(r[i]) == s[i])
              && (!IsUpperChar(s[i]) ==> r[i] == s[i])
  {
    seq(|s|, i requires 0 <= i < |s| => ToLower(s[i]))
  }

  /** A string without capitals is its own lower-case form. */
  lemma LowerKeepsNoUpper(s: String)
    requires forall i :: 0 <= i < |s| ==> !IsUpperChar(s[i])
    ensures Lower(s) == s
  {
  }

  /** Lower-casing twice is lower-casing once, and a lower-cased string has no capitals. */
  lemma LowerIdempotent(s: String)
    ensures Lower(Lower(s)) == Lower(s)
    ensures forall i :: 0 <= i < |s| ==> !IsUpperChar(Lower(s)[i])
  {
  }

  /** `any(ch.isdigit() for ch in s)`, scanned left to right. */
  function ContainsDigit(s: String): (b: bool)
    ensures b <==> exists i :: 0 <= i < |s| && IsDigit(s[i])
  {
    if |s| == 0 then false
    else if IsDigit(s[0]) then true
    else
      var rest := ContainsDigit(s[1..]);
      assert forall i :: 1 <= i < |s| ==> s[i] == s[1..][i - 1];
      rest
  }

  /** The loop of `str.islower` from a given position: false at the first
      capital, otherwise whether some cased character was seen. */
  function IsLowerFrom(s: String, cased: bool): (b: bool)
    ensures b <==> (cased || exists i :: 0 <= i < |s| && IsLowerChar(s[i]))
                   && forall i :: 0 <= i < |s| ==> !IsUpperChar(s[i])
  {
    if |s| == 0 then cased
    else if IsUpperChar(s[0]) then false
    else
      var rest := IsLowerFrom(s[1..], cased || IsLowerChar(s[0]));
      assert forall i :: 1 <= i < |s| ==> s[i] == s[1..][i - 1];
      rest
  }

  /** `str.islower`: at least one cased character and no upper-case one. */
  function IsLowerString(s: String): (b: bool)
    ensures b <==> (exists i :: 0 <= i < |s| && IsLetter(s[i]))
                   && forall i :: 0 <= i < |s| ==> !IsUpperChar(s[i])
  {
    IsLowerFrom(s, false)
  }

  /** `str.lstrip()`: drops the leading whitespace and keeps the rest. */
  function TrimLeft(s: String): (r: String)
    ensures |r| <= |s|
    ensures forall i :: 0 <= i < |s| - |r| ==> IsSpace(s[i])
    ensures r == [] || !IsSpace(r[0])
  {
    if |s| > 0 && IsSpace(s[0]) then
      var r := TrimLeft(s[1..]);
      assert forall i :: 1 <= i < |s| ==> s[i] == s[1..][i - 1];
      r
    else s
  }

  /** `str.rstrip()`: drops the trailing whitespace and keeps the rest. */
  function TrimRight(s: String): (r: String)
    ensures |r| <= |s|
    ensures forall i :: |r| <= i < |s| ==> IsSpace(s[i])
    ensures r == [] || !IsSpace(r[|r| - 1])
  {
    if |s| > 0 && IsSpace(s[|s| - 1]) then
      var r := TrimRight(s[..|s| - 1]);
      assert forall i :: 0 <= i < |s| - 1 ==> s[i] == s[..|s| - 1][i];
      r
    else s
  }

  /** What `lstrip` keeps is a suffix of its input. */
  lemma {:induction false} TrimLeftIsSuffix(s: String)
    ensures TrimLeft(s) == s[|s| - |TrimLeft(s)|..]
  {
    if |s| > 0 && IsSpace(s[0]) {
      TrimLeftIsSuffix(s[1..]);
      assert s[1..][|s| - 1 - |TrimLeft(s)|..] == s[|s| - |TrimLeft(s)|..];
    }
  }

  /** What `rstrip` keeps is a prefix of its input. */
  lemma {:induction false} TrimRightIsPrefix(s: String)
    ensures TrimRight(s) == s[..|TrimRight(s)|]
  {
    if |s| > 0 && IsSpace(s[|s| - 1]) {
      TrimRightIsPrefix(s[..|s| - 1]);
      assert s[..|s| - 1][..|TrimRight(s)|] == s[..|TrimRight(s)|];
    }
  }

  /** Whether `r` occurs in `s` starting at position `k`. */
  predicate OccursAt(r: String, s: String, k: int) {
    0 <= k <= |s| - |r| && r == s[k..k + |r|]
  }

  /** `str.strip()`: the infix left after dropping whitespace from both ends;
      it neither starts nor ends with whitespace, everything dropped is
      whitespace, and it is empty exactly when the string is whitespace only. */
  function Strip(s: String): (r: String)
    ensures |r| <= |s|
    ensures r == [] || (!IsSpace(r[0]) && !IsSpace(r[|r| - 1]))
    ensures r == [] <==> forall i :: 0 <= i < |s| ==> IsSpace(s[i])
    ensures exists k :: && OccursAt(r, s, k)
                        && (forall i :: 0 <= i < k ==> IsSpace(s[i]))
                        && (forall i :: k + |r| <= i < |s| ==> IsSpace(s[i]))
  {
    TrimRightIsPrefix(TrimLeft(s));
    TrimBothEnds(s);
    TrimRight(TrimLeft(s))
  }

  /** Trimming the left end and then the right end leaves an infix with only
      whitespace before and after it. */
  lemma TrimBothEnds(s: String)
    ensures var t := TrimLeft(s);
            var k := |s| - |t|;
            && OccursAt(TrimRight(t), s, k)
            && (forall i :: 0 <= i < k ==> IsSpace(s[i]))
            && (forall i :: k + |TrimRight(t)| <= i < |s| ==> IsSpace(s[i]))
  {
    var t := TrimLeft(s);
    var r := TrimRight(t);
    var k := |s| - |t|;
    TrimLeftIsSuffix(s);
    TrimRightIsPrefix(t);
    assert r == t[..|r|] == s[k..k + |r|];
    forall i | k + |r| <= i < |s|
      ensures IsSpace(s[i])
    {
      assert s[i] == t[i - k];
    }
  }

  /** Stripping a string without surrounding whitespace changes nothing;
      in particular stripping is idempotent. */
  lemma {:induction false} StripUnpadded(s: String)
    requires s == [] || (!IsSpace(s[0]) && !IsSpace(s[|s| - 1]))
    ensures Strip(s) == s
  {
    if s != [] {
      assert TrimLeft(s) == s;
      assert TrimRight(s) == s;
    }
  }

  lemma StripIdempotent(s: String)
    ensures Strip(Strip(s)) == Strip(s)
  {
    StripUnpadded(Strip(s));
  }

  /** Whether position `i` of `s` starts a word for `str.title`: the first
      position (when no cased character precedes the string) or one that
      follows a non-letter. */
  predicate StartsWord(s: String, i: int, prevCased: bool)
    requires 0 <= i < |s|
  {
    if i == 0 then !prevCased else !IsLetter(s[i - 1])
  }

  /** The loop of `str.title` from a given position: each character is
      title-cased when the previous one was not cased and lower-cased otherwise. */
  function TitleFrom(s: String, prevCased: bool): (r: String)
    ensures |r| == |s|
    ensures forall i {:trigger r[i]} :: 0 <= i < |s| ==>
              r[i] == if StartsWord(s, i, prevCased) then ToUpper(s[i]) else ToLower(s[i])
  {
    if |s| == 0 then []
    else
      var c := if prevCased then ToLower(s[0]) else ToUpper(s[0]);
      var rest := TitleFrom(s[1..], IsLetter(c));
      assert forall i :: 1 <= i < |s| ==> s[i] == s[1..][i - 1];
      [c] + rest
  }

  /** `str.title`: a letter that is the first character or follows a
      non-letter is upper-cased, every other character is lower-cased. */
  function Title(s: String): (r: String)
    ensures |r| == |s|
    ensures forall i {:trigger r[i]} :: 0 <= i < |s| ==>
              r[i] == if i == 0 || !IsLetter(s[i - 1]) then ToUpper(s[i]) else ToLower(s[i])
  {
    TitleFrom(s, false)
  }

  /** The reference rule for title case: a letter is upper-cased when it is the
      first character or follows a non-letter and lower-cased otherwise;
      every non-letter is kept as it is. */
  lemma TitleRule(s: String)
    ensures forall i :: 0 <= i < |s| && !IsLetter(s[i]) ==> Title(s)[i] == s[i]
    ensures forall i :: 0 <= i < |s| && IsLetter(s[i]) && (i == 0 || !IsLetter(s[i - 1])) ==>
              IsUpperChar(Title(s)[i]) && ToLower(Title(s)[i]) == ToLower(s[i])
  {
    forall i | 0 <= i < |s| ensures ToLower(Title(s)[i]) == ToLower(s[i]) {
      CaseRoundTrip(s[i]);
    }
  }

  /** Title-casing an already title-cased string changes nothing. */
  lemma TitleIdempotent(s: String)
    ensures Title(Title(s)) == Title(s)
  {
    var t := Title(s);
    forall i | 0 <= i < |s| ensures Title(t)[i] == t[i] {
      CaseRoundTrip(s[i]);
    }
  }

  /** Position `i` of `s` is as title case leaves it: a letter that starts
      a word is upper case and any other letter is lower case. */
  predicate TitledAt(s: String, i: int)
    requires 0 <= i < |s|
  {
    IsLetter(s[i]) ==> if i == 0 || !IsLetter(s[i - 1]) then IsUpperChar(s[i]) else IsLowerChar(s[i])
  }

  /** A string is in title form exactly when every position is titled, and
      then title-casing leaves it as it is. */
  lemma TitleFixedPoints(s: String)
    ensures Title(s) == s <==> forall i :: 0 <= i < |s| ==> TitledAt(s, i)
  {
    if forall i :: 0 <= i < |s| ==> TitledAt(s, i) {
      forall i | 0 <= i < |s| ensures Title(s)[i] == s[i] {
        assert TitledAt(s, i);
      }
    }
    if Title(s) == s {
      forall i | 0 <= i < |s| ensures TitledAt(s, i) {
        assert Title(s)[i] == s[i];
      }
    }
  }

  /** Every position of a title-cased string is titled. */
  lemma TitleIsTitled(s: String)
    ensures forall i :: 0 <= i < |Title(s)| ==> TitledAt(Title(s), i)
  {
    TitleIdempotent(s);
    TitleFixedPoints(Title(s));
  }

  /** Title case only changes letters, so it keeps whitespace where it was. */
  lemma TitleKeepsSpaceAt(s: String, i: int)
    requires 0 <= i < |s|
    ensures |Title(s)| == |s| && IsSpace(Title(s)[i]) == IsSpace(s[i])
  {
  }

  /** Title-casing and lower-casing agree up to case. */
  lemma TitleAgreesUpToCase(s: String)
    ensures Lower(Title(s)) == Lower(s)
  {
    forall i | 0 <= i < |s| ensures ToLower(Title(s)[i]) == ToLower(s[i]) {
      CaseRoundTrip(s[i]);
    }
  }

  /** Title case looks only at letters, not at their case: strings that agree
      up to case have the same title form. */
  lemma TitleIgnoresCase(s: String, t: String)
    requires Lower(s) == Lower(t)
    ensures Title(s) == Title(t)
  {
    assert |s| == |Lower(s)| == |t|;
    forall i | 0 <= i < |s| ensures Title(s)[i] == Title(t)[i] {
      assert ToLower(s[i]) == Lower(s)[i] == ToLower(t[i]);
      CaseRoundTrip(s[i]);
      CaseRoundTrip(t[i]);
      if 0 < i {
        assert ToLower(s[i - 1]) == Lower(s)[i - 1] == ToLower(t[i - 1]);
      }
    }
  }

  /** The example the seed data depends on: "push-ups" is stored as "Push-Ups". */
  lemma TitleOfPushUps(s: String)
    requires s == "push-ups"
    ensures Title(s) == "Push-Ups"
  {
    var t := Title(s);
    assert s[0] == 'p' && s[1] == 'u' && s[2] == 's' && s[3] == 'h';
    assert s[4] == '-' && s[5] == 'u' && s[6] == 'p' && s[7] == 's';
    assert t[0] == ToUpper('p') == 'P';
    assert t[1] == ToLower('u') == 'u';
    assert t[2] == ToLower('s') == 's';
    assert t[3] == ToLower('h') == 'h';
    assert t[4] == '-';
    assert t[5] == ToUpper('u') == 'U';
    assert t[6] == ToLower('p') == 'p';
    assert t[7] == ToLower('s') == 's';
  }
}
