/** The regular-expression matcher of grep: `^`, `.`, `c*` and `$`.

    The matcher is proved to decide a declarative reading of the pattern: a
    pattern is a list of items, each item denotes a set of words, and a text
    matches when one of its slices is a concatenation of such words. */
module Grep {

  /** One element of a pattern: a character that occurs once or is starred. */
  datatype Item = One(c: char) | Star(c: char)

  /** The characters of a C string that precede its terminating NUL. */
  ghost predicate CString(s: string) {
    forall i :: 0 <= i < |s| ==> s[i] != '\0'
  }

  /** The character stored at offset i of a C string. */
  function At(s: string, i: nat): char {
    if i < |s| then s[i] else '\0'
  }

  predicate Accepts(c: char, x: char) {
    c == '.' || c == x
  }

  ghost predicate AllAccepted(c: char, w: string) {
    forall i :: 0 <= i < |w| ==> Accepts(c, w[i])
  }

  /** The items of an unanchored pattern; a final `$` is not an item. */
  ghost function Items(re: string): seq<Item> {
    if re == "" || re == "$" then []
    else if At(re, 1) == '*' then [Star(re[0])] + Items(re[2..])
    else [One(re[0])] + Items(re[1..])
  }

  ghost predicate EndAnchored(re: string) {
    if re == "" then false
    else if re == "$" then true
    else if At(re, 1) == '*' then EndAnchored(re[2..])
    else EndAnchored(re[1..])
  }

  ghost predicate ItemDenotes(item: Item, w: string) {
    match item
    case One(c) => |w| == 1 && Accepts(c, w[0])
    case Star(c) => AllAccepted(c, w)
  }

  /** w is a concatenation of words denoted by the items. */
  ghost predicate Denotes(items: seq<Item>, w: string) {
    if items == [] then w == ""
    else exists k :: 0 <= k <= |w| && ItemDenotes(items[0], w[..k]) && Denotes(items[1..], w[k..])
  }

  ghost predicate PrefixEnds(re: string, text: string, j: nat) {
    j <= |text| && Denotes(Items(re), text[..j]) && (EndAnchored(re) ==> j == |text|)
  }

  ghost predicate PrefixMatch(re: string, text: string) {
    exists j: nat :: PrefixEnds(re, text, j)
  }

  /** The slice text[i..j] is a match of the whole pattern. */
  ghost predicate Occurs(re: string, text: string, i: nat, j: nat) {
    var anchored := At(re, 0) == '^';
    var body := if anchored then re[1..] else re;
    && i <= j <= |text|
    && (anchored ==> i == 0)
    && (EndAnchored(body) ==> j == |text|)
    && Denotes(Items(body), text[i..j])
  }

  ghost predicate StarSplit(c: char, re: string, text: string, k: nat) {
    k <= |text| && AllAccepted(c, text[..k]) && PrefixMatch(re, text[k..])
  }

  lemma EmptyPattern(text: string)
    ensures PrefixMatch("", text)
  {
    assert PrefixEnds("", text, 0);
  }

  lemma EndPattern(text: string)
    ensures PrefixMatch("$", text) <==> text == ""
  {
    if text == "" {
      assert PrefixEnds("$", text, 0);
    }
  }

  lemma StarPattern(re: string, text: string)
    requires At(re, 0) != '\0' && At(re, 1) == '*'
    ensures PrefixMatch(re, text) <==> exists k: nat :: StarSplit(re[0], re[2..], text, k)
  {
    var rest := re[2..];
    assert Items(re) == [Star(re[0])] + Items(rest);
    if PrefixMatch(re, text) {
      var j: nat :| PrefixEnds(re, text, j);
      var k: nat :| k <= j && AllAccepted(re[0], text[..j][..k]) && Denotes(Items(rest), text[..j][k..]);
      assert text[..j][..k] == text[..k] && text[..j][k..] == text[k..][..j - k];
      assert PrefixEnds(rest, text[k..], j - k);
      assert StarSplit(re[0], rest, text, k);
    }
    if k: nat :| StarSplit(re[0], rest, text, k) {
      var j: nat :| PrefixEnds(rest, text[k..], j);
      assert text[..k + j][..k] == text[..k] && text[..k + j][k..] == text[k..][..j];
      assert PrefixEnds(re, text, k + j);
    }
  }

  lemma OnePattern(re: string, text: string)
    requires re != "" && re != "$" && At(re, 1) != '*'
    ensures PrefixMatch(re, text) <==> text != "" && Accepts(re[0], text[0]) && PrefixMatch(re[1..], text[1..])
  {
    assert Items(re) == [One(re[0])] + Items(re[1..]);
    if PrefixMatch(re, text) {
      var j: nat :| PrefixEnds(re, text, j);
      assert text[..j][1..] == text[1..][..j - 1];
      assert PrefixEnds(re[1..], text[1..], j - 1);
    }
    if text != "" && Accepts(re[0], text[0]) && PrefixMatch(re[1..], text[1..]) {
      var j: nat :| PrefixEnds(re[1..], text[1..], j);
      assert text[..j + 1][1..] == text[1..][..j] && text[..j + 1][..1] == [text[0]];
      assert PrefixEnds(re, text, j + 1);
    }
  }

  method MatchHere(re: string, text: string) returns (found: bool)
    requires CString(re) && CString(text)
    ensures found <==> PrefixMatch(re, text)
    decreases |re|, 1
  {
    if At(re, 0) == '\0' {
      EmptyPattern(text);
      return true;
    }
    if At(re, 1) == '*' {
      StarPattern(re, text);
      found := MatchStar(re[0], re[2..], text);
      return;
    }
    if re[0] == '$' && At(re, 1) == '\0' {
      assert re == "$";
      EndPattern(text);
      return At(text, 0) == '\0';
    }
    OnePattern(re, text);
    if At(text, 0) != '\0' && (re[0] == '.' || re[0] == text[0]) {
      found := MatchHere(re[1..], text[1..]);
      return;
    }
    return false;
  }

  method MatchStar(c: char, re: string, text: string) returns (found: bool)
    requires CString(re) && CString(text)
    ensures found <==> exists k: nat :: StarSplit(c, re, text, k)
    decreases |re|, 2
  {
    var t := 0;
    while true
      invariant t <= |text| && AllAccepted(c, text[..t])
      invariant forall k: nat :: k < t ==> !PrefixMatch(re, text[k..])
      decreases |text| - t
    {
      var here := MatchHere(re, text[t..]);
      if here {
        assert StarSplit(c, re, text, t);
        return true;
      }
      if At(text, t) == '\0' || !(text[t] == c || c == '.') {
        break;
      }
      t := t + 1;
    }
    forall k: nat | t < k <= |text|
      ensures !AllAccepted(c, text[..k])
    {
      assert text[..k][t] == text[t];
    }
    return false;
  }

  lemma OccursAsPrefix(re: string, text: string, i: nat)
    requires i <= |text| && (At(re, 0) == '^' ==> i == 0)
    ensures PrefixMatch(if At(re, 0) == '^' then re[1..] else re, text[i..]) <==> exists j :: Occurs(re, text, i, j)
  {
    var body := if At(re, 0) == '^' then re[1..] else re;
    forall j: nat | i <= j <= |text|
      ensures PrefixEnds(body, text[i..], j - i) <==> Occurs(re, text, i, j)
    {
      assert text[i..][..j - i] == text[i..j];
    }
    if PrefixMatch(body, text[i..]) {
      var k: nat :| PrefixEnds(body, text[i..], k);
      assert PrefixEnds(body, text[i..], (i + k) - i);
      assert Occurs(re, text, i, i + k);
    }
    if j: nat :| Occurs(re, text, i, j) {
      assert PrefixEnds(body, text[i..], j - i);
    }
  }

  /** grep reports a line exactly when some slice of it is a match. */
  method Match(re: string, text: string) returns (found: bool)
    requires CString(re) && CString(text)
    ensures found <==> exists i, j :: Occurs(re, text, i, j)
  {
    if At(re, 0) == '^' {
      OccursAsPrefix(re, text, 0);
      assert text[0..] == text;
      found := MatchHere(re[1..], text);
      return;
    }

    var t := 0;
    while true
      invariant t <= |text|
      invariant forall i: nat, j: nat :: i < t ==> !Occurs(re, text, i, j)
      decreases |text| - t
    {
      OccursAsPrefix(re, text, t);
      found := MatchHere(re, text[t..]);
      if found || At(text, t) == '\0' {
        return;
      }
      t := t + 1;
    }
  }
}
