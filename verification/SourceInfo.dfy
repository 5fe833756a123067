/** Printing and parsing of snapshot sources. */
module Source {
  datatype SourceInfo = SourceInfo(host: string, userName: string, path: string)

  datatype ParseResult = Parsed(si: SourceInfo) | Invalid(message: string)

  const GLOBAL := SourceInfo("", "", "")

  function String(si: SourceInfo): string {
    if si == GLOBAL then "(global)"
    else if si.path == "" then si.userName + "@" + si.host
    else si.userName + "@" + si.host + ":" + si.path
  }

  /** The first index of a character, or -1. */
  function IndexOf(s: string, c: char): (i: int)
    ensures -1 <= i < |s|
    ensures i < 0 <==> c !in s
    ensures i >= 0 ==> s[i] == c && c !in s[..i]
  {
    if s == "" then -1
    else if s[0] == c then 0
    else
      var i := IndexOf(s[1..], c);
      assert i >= 0 ==> s[..i + 1] == [s[0]] + s[1..][..i];
      if i < 0 then -1 else i + 1
  }

  /** `abs` makes a local path absolute and clean, or fails. */
  function ParseSourceInfo(text: string, hostname: string, username: string, abs: string -> ParseResult): ParseResult {
    if text == "(global)" then Parsed(GLOBAL)
    else ParseAt(text, IndexOf(text, '@'), IndexOf(text, ':'), hostname, username, abs)
  }

  /** Parses a text whose first '@' is at p1 and whose first ':' is at p2. */
  function ParseAt(text: string, p1: int, p2: int, hostname: string, username: string,
                   abs: string -> ParseResult): ParseResult
    requires -1 <= p1 < |text| && -1 <= p2 < |text|
  {
    if p1 > 0 && p2 > 0 && p1 < p2 then Parsed(SourceInfo(text[p1 + 1..p2], text[..p1], text[p2 + 1..]))
    else if p1 >= 0 && p2 < 0 then
      if p1 + 1 < |text| then Parsed(SourceInfo(text[p1 + 1..], text[..p1], ""))
      else Invalid("invalid hostname")
    else
      match abs(text)
      case Invalid(m) => Invalid("invalid directory")
      case Parsed(local) => Parsed(SourceInfo(hostname, username, local.path))
  }

  /**
    The user has neither '@' nor ':', the host no ':', and what the form needs
    is there: a host without a path, a user with one.
   */
  ghost predicate Printable(si: SourceInfo) {
    || si == GLOBAL
    || (&& '@' !in si.userName && ':' !in si.userName && ':' !in si.host
        && if si.path == "" then si.host != "" else si.userName != "")
  }

  lemma {:induction false} IndexOfAfter(a: string, c: char, b: string)
    requires c !in a
    ensures IndexOf(a + [c] + b, c) == |a|
  {
    if a != "" {
      assert (a + [c] + b)[1..] == a[1..] + [c] + b;
      IndexOfAfter(a[1..], c, b);
    }
  }

  lemma {:induction false} IndexOfInPrefix(a: string, c: char, b: string)
    requires c in a
    ensures 0 <= IndexOf(a + b, c) < |a|
  {
    if a[0] != c {
      assert (a + b)[1..] == a[1..] + b;
      IndexOfInPrefix(a[1..], c, b);
    }
  }

  lemma IndexOfNowhere(a: string, c: char)
    requires c !in a
    ensures IndexOf(a, c) == -1
  {
  }

  lemma TextHasAt(si: SourceInfo)
    requires si != GLOBAL
    ensures String(si) != "(global)" && '@' in String(si) && |si.userName| + 1 + |si.host| <= |String(si)|
    ensures si.path == "" ==> |String(si)| == |si.userName| + 1 + |si.host|
  {
    assert String(si)[|si.userName|] == '@';
  }

  /** Where the first '@' is: after the user, or inside it. */
  lemma FirstAt(si: SourceInfo)
    requires si != GLOBAL
    ensures var p := IndexOf(String(si), '@');
            if '@' in si.userName then 0 <= p < |si.userName| else p == |si.userName|
  {
    var rest := if si.path == "" then si.host else si.host + ":" + si.path;
    assert String(si) == si.userName + ("@" + rest) == si.userName + ['@'] + rest;
    if '@' in si.userName {
      IndexOfInPrefix(si.userName, '@', "@" + rest);
    } else {
      IndexOfAfter(si.userName, '@', rest);
    }
  }

  /** Where the first ':' is: in the user, in the host, before the path, or nowhere. */
  lemma FirstColon(si: SourceInfo)
    requires si != GLOBAL
    ensures var p, n := IndexOf(String(si), ':'), |si.userName| + 1 + |si.host|;
            && (':' in si.userName ==> 0 <= p < |si.userName|)
            && (':' !in si.userName && ':' in si.host ==> |si.userName| < p < n)
            && (':' !in si.userName && ':' !in si.host ==> p == if si.path == "" then -1 else n)
  {
    var before := si.userName + "@" + si.host;
    var tail := if si.path == "" then "" else ":" + si.path;
    assert String(si) == before + tail;
    if ':' in si.userName {
      assert String(si) == si.userName + ("@" + si.host + tail);
      IndexOfInPrefix(si.userName, ':', "@" + si.host + tail);
    } else if ':' in si.host {
      assert ':' in before;
      IndexOfInPrefix(before, ':', tail);
      var i := IndexOf(String(si), ':');
      assert before[i] == ':';
    } else if si.path != "" {
      assert String(si) == before + [':'] + si.path;
      IndexOfAfter(before, ':', si.path);
    } else {
      IndexOfNowhere(String(si), ':');
    }
  }

  lemma SplitText(user: string, host: string, path: string, text: string)
    requires text == user + "@" + host + ":" + path
    ensures text[..|user|] == user && text[|user| + 1..|user| + 1 + |host|] == host
    ensures text[|user| + 2 + |host|..] == path
  {
  }

  lemma SplitPathless(user: string, host: string, text: string)
    requires text == user + "@" + host
    ensures text[..|user|] == user && text[|user| + 1..] == host
  {
  }

  /** Split at the right places, the text gives back the source. */
  lemma RightSplit(si: SourceInfo, text: string, p1: int, p2: int, hostname: string, username: string,
                   abs: string -> ParseResult)
    requires text == String(si) && Printable(si) && si != GLOBAL
    requires p1 == |si.userName| && p2 == if si.path == "" then -1 else |si.userName| + 1 + |si.host|
    requires p1 < |text| && p2 < |text|
    ensures ParseAt(text, p1, p2, hostname, username, abs) == Parsed(si)
  {
    if si.path == "" {
      SplitPathless(si.userName, si.host, text);
    } else {
      SplitText(si.userName, si.host, si.path, text);
    }
  }

  /** Split anywhere else, it does not. */
  lemma WrongSplit(si: SourceInfo, text: string, p1: int, p2: int, hostname: string, username: string,
                   abs: string -> ParseResult)
    requires 0 <= p1 < |text| && -1 <= p2 < |text| && hostname != si.host
    requires || p1 < |si.userName|
             || 0 <= p2 < p1 == |si.userName|
             || p1 == |si.userName| < p2 < |si.userName| + 1 + |si.host|
             || (p1 == |si.userName| && p2 < 0 && |text| == |si.userName| + 1)
             || 0 == p1 == |si.userName| < p2
    ensures ParseAt(text, p1, p2, hostname, username, abs) != Parsed(si)
  {
    if p1 < |si.userName| {
      assert text[..p1] != si.userName;
    } else if p1 < p2 && p1 > 0 {
      assert text[p1 + 1..p2] != si.host;
    }
  }

  /** A printable source is read back as it was, wherever it is read. */
  lemma PrintableRoundTrips(si: SourceInfo, hostname: string, username: string, abs: string -> ParseResult)
    requires Printable(si)
    ensures ParseSourceInfo(String(si), hostname, username, abs) == Parsed(si)
  {
    if si != GLOBAL {
      TextHasAt(si);
      FirstAt(si);
      FirstColon(si);
      RightSplit(si, String(si), IndexOf(String(si), '@'), IndexOf(String(si), ':'), hostname, username, abs);
    }
  }

  /** An unprintable source is read back as something else, for example on a host of another name. */
  lemma UnprintableIsLost(si: SourceInfo, hostname: string, username: string, abs: string -> ParseResult)
    requires !Printable(si) && hostname != si.host
    ensures ParseSourceInfo(String(si), hostname, username, abs) != Parsed(si)
  {
    TextHasAt(si);
    FirstAt(si);
    FirstColon(si);
    WrongSplit(si, String(si), IndexOf(String(si), '@'), IndexOf(String(si), ':'), hostname, username, abs);
  }

  /** Printing then parsing gives back a source, on every host, exactly for the printable ones. */
  lemma RoundTripExactly(si: SourceInfo)
    ensures Printable(si) <==>
              forall hostname, username, abs :: ParseSourceInfo(String(si), hostname, username, abs) == Parsed(si)
  {
    if Printable(si) {
      forall hostname, username, abs
        ensures ParseSourceInfo(String(si), hostname, username, abs) == Parsed(si)
      {
        PrintableRoundTrips(si, hostname, username, abs);
      }
    } else {
      var hostname, abs := si.host + "x", (s: string) => Invalid("");
      UnprintableIsLost(si, hostname, "", abs);
    }
  }

  /** So no two printable sources print alike. */
  lemma StringIsInjective(a: SourceInfo, b: SourceInfo)
    requires Printable(a) && Printable(b) && String(a) == String(b)
    ensures a == b
  {
    PrintableRoundTrips(a, "", "", s => Invalid(""));
    PrintableRoundTrips(b, "", "", s => Invalid(""));
  }

  /** The text has no '@', or a ':' before the first '@', or a ':' and no user. */
  ghost predicate LooksLocal(text: string) {
    || '@' !in text
    || (text[0] == '@' && ':' in text)
    || exists i :: 0 <= i < |text| && text[i] == ':' && forall j :: 0 <= j < i ==> text[j] != '@'
  }

  lemma IndexOfIsFirst(s: string, c: char)
    ensures forall i :: 0 <= i < |s| && (IndexOf(s, c) < 0 || i < IndexOf(s, c)) ==> s[i] != c
  {
    var p := IndexOf(s, c);
    assert forall i :: 0 <= i < p ==> s[i] == s[..p][i];
  }

  lemma LooksLocalExactly(text: string)
    ensures var p1, p2 := IndexOf(text, '@'), IndexOf(text, ':');
            LooksLocal(text) <==> !((p1 > 0 && p2 > 0 && p1 < p2) || (p1 >= 0 && p2 < 0))
  {
    IndexOfIsFirst(text, '@');
    IndexOfIsFirst(text, ':');
  }

  /** A text that looks local is a directory of the current user on this host, and nothing else is. */
  lemma LocalTextIsOwnDirectory(text: string, hostname: string, username: string, abs: string -> ParseResult)
    requires text != "(global)" && LooksLocal(text)
    ensures var r := ParseSourceInfo(text, hostname, username, abs);
            && (r.Parsed? <==> abs(text).Parsed?)
            && (r.Parsed? ==> r.si.host == hostname && r.si.userName == username && r.si.path == abs(text).si.path)
  {
    LooksLocalExactly(text);
  }

  /** Any other text has a meaning of its own: it is read alike on all hosts. */
  lemma OtherTextIsReadAlike(text: string, h1: string, u1: string, abs1: string -> ParseResult, h2: string, u2: string,
                             abs2: string -> ParseResult)
    requires !LooksLocal(text)
    ensures ParseSourceInfo(text, h1, u1, abs1) == ParseSourceInfo(text, h2, u2, abs2)
  {
    LooksLocalExactly(text);
  }
}
