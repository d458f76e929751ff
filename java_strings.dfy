/** The java.lang.String operations the application's decisions depend on:
    trim(), isEmpty(), startsWith() and split() with a one-character separator. */
module JavaStrings {
  import opened JavaLang

  /** String.trim() drops every leading and trailing character at or below U+0020. */
  function TrimStart(s: string): string {
    if s != [] && s[0] <= ' ' then TrimStart(s[1..]) else s
  }

  function TrimEnd(s: string): string {
    if s != [] && s[|s| - 1] <= ' ' then TrimEnd(s[..|s| - 1]) else s
  }

  function Trim(s: string): string {
    TrimEnd(TrimStart(s))
  }

  /** Every character of s is one that trim() removes. */
  predicate AllSpace(s: string) {
    forall i :: 0 <= i < |s| ==> s[i] <= ' '
  }

  /** `s == null || s.trim().isEmpty()`, the test the application applies to a query and a header. */
  predicate IsBlank(s: Option<string>) {
    s.None? || Trim(s.value) == []
  }

  lemma {:induction false} TrimStartEmpty(s: string)
    ensures TrimStart(s) == [] <==> AllSpace(s)
  {
    if s != [] && s[0] <= ' ' {
      TrimStartEmpty(s[1..]);
      assert forall i :: 1 <= i < |s| ==> s[i] == s[1..][i - 1];
    }
  }

  lemma {:induction false} TrimEndSpaceOnly(s: string)
    ensures TrimEnd(s) == [] ==> AllSpace(s)
  {
    if s != [] && s[|s| - 1] <= ' ' {
      TrimEndSpaceOnly(s[..|s| - 1]);
    }
  }

  /** If what TrimStart leaves is all space, so was the whole string. */
  lemma {:induction false} TrimStartKeepsSpace(s: string)
    requires AllSpace(TrimStart(s))
    ensures AllSpace(s)
  {
    if s != [] && s[0] <= ' ' {
      TrimStartKeepsSpace(s[1..]);
      assert forall i :: 1 <= i < |s| ==> s[i] == s[1..][i - 1];
    }
  }

  /** `s.trim().isEmpty()` holds exactly when s consists of characters at or below U+0020. */
  lemma TrimEmptyIff(s: string)
    ensures Trim(s) == [] <==> AllSpace(s)
  {
    TrimStartEmpty(s);
    if Trim(s) == [] {
      TrimEndSpaceOnly(TrimStart(s));
      TrimStartKeepsSpace(s);
    }
  }

  /** String.startsWith(prefix). */
  predicate StartsWith(s: string, prefix: string) {
    prefix <= s
  }

  /** Appending a key, a joiner and a value after a separator, regrouped left to right. */
  lemma Regroup(x: string, q: string, a: string, k: string, e: string, v: string)
    ensures x + (q + a + (k + e + v)) == x + q + a + k + e + v
  {
  }

  /** Appending a key, a joiner and a value to text followed by nothing, regrouped. */
  lemma RegroupAfterEmpty(x: string, k: string, e: string, v: string)
    ensures x + (k + e + v) == x + [] + k + e + v
  {
    assert x + [] == x;
  }

  /** A concatenation ends with the last character of its second part. */
  lemma LastOfConcat(a: string, b: string)
    requires |b| >= 1
    ensures (a + b)[|a + b| - 1] == b[|b| - 1]
  {
  }

  /** What follows a prefix of a concatenation of three parts is the other two. */
  lemma AfterPrefix(p: string, x: string, y: string, z: string)
    ensures p <= p + x + y + z && (p + x + y + z)[|p|..] == x + y + z
  {
    assert p + x + y + z == p + (x + y + z);
  }

  /** String.indexOf(c): the position of the first occurrence. */
  function IndexOf(s: string, c: char): (i: nat)
    requires c in s
    ensures i < |s| && s[i] == c && forall j :: 0 <= j < i ==> s[j] != c
    decreases |s|
  {
    if s[0] == c then 0
    else
      1 + IndexOf(s[1..], c)
  }

  /** Every piece of s between occurrences of sep, empty pieces included: the list
      String.split builds for a one-character separator, by repeatedly taking the text
      up to the next occurrence, before trailing empty pieces are removed. */
  function Pieces(s: string, sep: char): (r: seq<string>)
    ensures |r| >= 1
    decreases |s|
  {
    if sep !in s then [s]
    else
      var i := IndexOf(s, sep);
      [s[..i]] + Pieces(s[i + 1..], sep)
  }

  /** The list without its trailing empty strings. */
  function DropTrailingEmpty(ss: seq<string>): (r: seq<string>)
    ensures |r| <= |ss| && r == ss[..|r|]
    ensures r == [] || r[|r| - 1] != []
    ensures forall i :: |r| <= i < |ss| ==> ss[i] == []
  {
    if ss == [] then []
    else if ss[|ss| - 1] == [] then DropTrailingEmpty(ss[..|ss| - 1])
    else ss
  }

  /** String.split(regex) for a regex that is one literal character (such as "\\."):
      when the separator does not occur the result is the whole string, even an empty one;
      otherwise the pieces between separators with the trailing empty pieces removed. */
  function Split(s: string, sep: char): seq<string> {
    if sep !in s then [s] else DropTrailingEmpty(Pieces(s, sep))
  }

  /** Joining pieces with the separator between them. */
  function Join(ss: seq<string>, sep: char): string
    decreases |ss|
  {
    if ss == [] then []
    else if |ss| == 1 then ss[0]
    else ss[0] + [sep] + Join(ss[1..], sep)
  }

  /** Joining a string in front of at least one other puts one separator between. */
  lemma JoinCons(h: string, ss: seq<string>, sep: char)
    requires |ss| >= 1
    ensures Join([h] + ss, sep) == h + [sep] + Join(ss, sep)
  {
    assert ([h] + ss)[1..] == ss;
  }

  /** No piece contains the separator. */
  lemma {:induction false} PiecesArePlain(s: string, sep: char)
    ensures forall i :: 0 <= i < |Pieces(s, sep)| ==> sep !in Pieces(s, sep)[i]
    decreases |s|
  {
    if sep in s {
      var i := IndexOf(s, sep);
      PiecesArePlain(s[i + 1..], sep);
      var pr := Pieces(s[i + 1..], sep);
      var r := Pieces(s, sep);
      assert r == [s[..i]] + pr;
      assert forall j :: 1 <= j < |r| ==> r[j] == pr[j - 1];
    }
  }

  /** Joining the pieces with the separator gives back the string. */
  lemma {:induction false} PiecesJoin(s: string, sep: char)
    ensures Join(Pieces(s, sep), sep) == s
    decreases |s|
  {
    if sep in s {
      var i := IndexOf(s, sep);
      PiecesJoin(s[i + 1..], sep);
      JoinCons(s[..i], Pieces(s[i + 1..], sep), sep);
      assert s == s[..i] + [sep] + s[i + 1..];
    }
  }

  /** A string without the separator is a single piece. */
  lemma PiecesOfPlain(s: string, sep: char)
    requires sep !in s
    ensures Pieces(s, sep) == [s]
  {
  }

  /** An occurrence with none before it is the one IndexOf finds. */
  lemma {:induction false} IndexOfFirst(s: string, c: char, i: nat)
    requires i < |s| && s[i] == c && forall j :: 0 <= j < i ==> s[j] != c
    ensures c in s && IndexOf(s, c) == i
    decreases i
  {
    if i > 0 {
      IndexOfFirst(s[1..], c, i - 1);
    }
  }

  /** The pieces of s, taken apart at its first separator. */
  lemma PiecesAt(s: string, sep: char, i: nat)
    requires i < |s| && s[i] == sep && forall j :: 0 <= j < i ==> s[j] != sep
    ensures Pieces(s, sep) == [s[..i]] + Pieces(s[i + 1..], sep)
  {
    IndexOfFirst(s, sep, i);
  }

  /** Text before the first separator is the first piece. */
  lemma PiecesAfterPlain(a: string, b: string, sep: char)
    requires sep !in a
    ensures Pieces(a + [sep] + b, sep) == [a] + Pieces(b, sep)
  {
    var s := a + [sep] + b;
    assert s[..|a|] == a && s[|a|] == sep && s[|a| + 1..] == b;
    PiecesAt(s, sep, |a|);
  }

  /** Splitting a join gives back the joined strings when none holds the separator. */
  lemma {:induction false} PiecesOfJoin(ss: seq<string>, sep: char)
    requires |ss| >= 1
    requires forall i :: 0 <= i < |ss| ==> sep !in ss[i]
    ensures Pieces(Join(ss, sep), sep) == ss
    decreases |ss|
  {
    if |ss| > 1 {
      PiecesOfJoin(ss[1..], sep);
      PiecesAfterPlain(ss[0], Join(ss[1..], sep), sep);
      assert ss == [ss[0]] + ss[1..];
    }
  }

  /** Joining one more string at the end appends the separator and that string. */
  lemma {:induction false} JoinSnoc(ss: seq<string>, x: string, sep: char)
    requires |ss| >= 1
    ensures Join(ss + [x], sep) == Join(ss, sep) + [sep] + x
    decreases |ss|
  {
    var t := ss + [x];
    assert t[1..] == ss[1..] + [x];
    if |ss| > 1 {
      JoinSnoc(ss[1..], x, sep);
    }
  }

  /** Three strings free of the separator, joined by it, split back into those three;
      the last one may arrive in two parts. */
  lemma PiecesOfThree(x: string, y: string, w: string, z: string, sep: char)
    requires sep !in x && sep !in y && sep !in w + z
    ensures Pieces(x + ([sep] + y + [sep] + w) + z, sep) == [x, y, w + z]
  {
    assert x + ([sep] + y + [sep] + w) + z == x + [sep] + (y + [sep] + (w + z));
    PiecesOfPlain(w + z, sep);
    PiecesAfterPlain(y, w + z, sep);
    PiecesAfterPlain(x, y + [sep] + (w + z), sep);
  }

  /** A run of separators splits into empty pieces only. */
  lemma {:induction false} PiecesOfSeparators(s: string, sep: char)
    requires forall i :: 0 <= i < |s| ==> s[i] == sep
    ensures forall j :: 0 <= j < |Pieces(s, sep)| ==> Pieces(s, sep)[j] == []
    decreases |s|
  {
    if s != [] {
      assert s[0] == sep;
      assert IndexOf(s, sep) == 0;
      PiecesOfSeparators(s[1..], sep);
    }
  }

  /** A string that holds a character other than the separator has a non-empty piece. */
  lemma {:induction false} PiecesNonEmpty(s: string, sep: char, k: nat)
    requires k < |s| && s[k] != sep
    ensures exists j :: 0 <= j < |Pieces(s, sep)| && Pieces(s, sep)[j] != []
    decreases |s|
  {
    if sep in s {
      var i := IndexOf(s, sep);
      if k < i {
        assert Pieces(s, sep)[0] == s[..i];
        assert s[..i][k] == s[k];
      } else {
        assert k > i;
        var pr := Pieces(s[i + 1..], sep);
        var r := Pieces(s, sep);
        PiecesNonEmpty(s[i + 1..], sep, k - i - 1);
        var j :| 0 <= j < |pr| && pr[j] != [];
        assert r == [s[..i]] + pr;
        assert r[j + 1] == pr[j];
      }
    } else {
      assert Pieces(s, sep)[0] == s;
    }
  }

  /** Splitting `p + sep + rest`, where p holds no separator: the first piece is p, and there are
      at least two pieces exactly when rest holds some character other than the separator. */
  lemma SplitAtFirstSeparator(p: string, rest: string, sep: char)
    requires sep !in p
    ensures |Split(p + [sep] + rest, sep)| >= 2 <==> exists i :: 0 <= i < |rest| && rest[i] != sep
    ensures |Split(p + [sep] + rest, sep)| >= 1 ==> Split(p + [sep] + rest, sep)[0] == p
  {
    var s := p + [sep] + rest;
    assert s[|p|] == sep;
    PiecesAfterPlain(p, rest, sep);
    var ss := Pieces(s, sep);
    var r := DropTrailingEmpty(ss);
    assert Split(s, sep) == r;
    if exists i :: 0 <= i < |rest| && rest[i] != sep {
      var i :| 0 <= i < |rest| && rest[i] != sep;
      PiecesNonEmpty(rest, sep, i);
      var j :| 0 <= j < |Pieces(rest, sep)| && Pieces(rest, sep)[j] != [];
      assert ss[j + 1] != [];
    } else {
      PiecesOfSeparators(rest, sep);
      assert forall j :: 1 <= j < |ss| ==> ss[j] == Pieces(rest, sep)[j - 1];
    }
  }
}
