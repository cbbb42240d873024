/**
  The avatar (components/Avatar.tsx): the image when a URL is given,
  otherwise a placeholder with up to two initials taken from the name's
  words, or "?" without a name. The size only shapes the style.
 */
module Avatar {
  import opened Entities

  datatype Content = Image(uri: string) | Placeholder(initials: string)

  /** `name.split(' ')`: the pieces between single spaces, empty ones
      included; `cur` is the piece being read. */
  function SplitAcc(s: string, cur: string): (words: seq<string>)
    ensures |words| >= 1
    ensures forall k :: 0 <= k < |words| ==> ' ' !in words[k] || (k == 0 && ' ' in cur)
    decreases |s|
  {
    if |s| == 0 then [cur]
    else if s[0] == ' ' then [cur] + SplitAcc(s[1..], [])
    else SplitAcc(s[1..], cur + [s[0]])
  }

  function Split(s: string): (words: seq<string>)
    ensures |words| >= 1 && forall k :: 0 <= k < |words| ==> ' ' !in words[k]
  {
    SplitAcc(s, [])
  }

  /** `words.join(' ')`. */
  function JoinWithSpaces(words: seq<string>): string
    requires |words| >= 1
    decreases |words|
  {
    if |words| == 1 then words[0] else words[0] + " " + JoinWithSpaces(words[1..])
  }

  lemma {:induction false} JoinSplitAcc(s: string, cur: string)
    ensures JoinWithSpaces(SplitAcc(s, cur)) == cur + s
    decreases |s|
  {
    if |s| > 0 {
      if s[0] == ' ' {
        JoinSplitAcc(s[1..], []);
        assert [cur] + SplitAcc(s[1..], []) != [];
        assert ([cur] + SplitAcc(s[1..], []))[1..] == SplitAcc(s[1..], []);
        assert cur + " " + s[1..] == cur + s;
      } else {
        JoinSplitAcc(s[1..], cur + [s[0]]);
        assert cur + [s[0]] + s[1..] == cur + s;
      }
    }
  }

  /** Splitting on spaces loses nothing: joining the words back gives the name. */
  lemma SplitJoins(s: string)
    ensures JoinWithSpaces(Split(s)) == s
  {
    JoinSplitAcc(s, []);
  }

  /** `.map(n => n[0]).join('')`: the first character of every word, an empty
      word contributing `undefined`, which `join` renders as nothing. */
  function Heads(words: seq<string>): (h: string)
    ensures |h| <= |words|
    decreases |words|
  {
    if |words| == 0 then []
    else (if |words[0]| > 0 then [words[0][0]] else []) + Heads(words[1..])
  }

  /** `toUpperCase` on the ASCII letters; every other character is kept. */
  function ToUpper(c: char): (u: char)
    ensures 'a' <= c <= 'z' ==> u as int == c as int - 32
    ensures !('a' <= c <= 'z') ==> u == c
  {
    if 'a' <= c <= 'z' then (c as int - 32) as char else c
  }

  function ToUpperAll(s: string): (u: string)
    ensures |u| == |s| && forall k :: 0 <= k < |s| ==> u[k] == ToUpper(s[k])
  {
    seq(|s|, k requires 0 <= k < |s| => ToUpper(s[k]))
  }

  /** `.substring(0, 2)`. */
  function FirstTwo(s: string): (t: string)
    ensures |t| <= 2 && |t| <= |s| && t == s[..|t|] && (|s| >= 2 ==> |t| == 2) && (|s| < 2 ==> t == s)
  {
    if |s| <= 2 then s else s[..2]
  }

  function Initials(name: string): string
  {
    FirstTwo(ToUpperAll(Heads(Split(name))))
  }

  /** What the avatar renders: an empty URL and an empty name count as
      missing, as JavaScript truthiness has it. */
  function AvatarContent(uri: Option<string>, name: Option<string>): (c: Content)
    ensures c.Image? <==> uri.Some? && uri.value != ""
    ensures c.Image? ==> c.uri == uri.value
    ensures c.Placeholder? ==> |c.initials| <= 2
    ensures c.Placeholder? && (name == None || name == Some("")) ==> c.initials == "?"
    ensures (uri == None || uri == Some("")) && name.Some? && name.value != "" ==>
      c == Placeholder(Initials(name.value))
  {
    if uri.Some? && uri.value != "" then Image(uri.value)
    else if name.Some? && name.value != "" then Placeholder(Initials(name.value))
    else Placeholder("?")
  }

  // ---------------------------------------------------------------------------
  // An independent reading of the initials

  /** The characters of `s` that start a word: those not preceded by a space
      (the first one is preceded by the start, `atStart`). */
  function WordStarts(s: string, atStart: bool): (w: string)
    decreases |s|
  {
    if |s| == 0 then []
    else if s[0] == ' ' then WordStarts(s[1..], true)
    else (if atStart then [s[0]] else []) + WordStarts(s[1..], false)
  }

  lemma {:induction false} HeadsAppend(a: seq<string>, b: seq<string>)
    ensures Heads(a + b) == Heads(a) + Heads(b)
    decreases |a|
  {
    if |a| > 0 {
      assert (a + b)[1..] == a[1..] + b;
      HeadsAppend(a[1..], b);
    } else {
      assert a + b == b;
    }
  }

  lemma {:induction false} HeadsSplitAcc(s: string, cur: string)
    ensures Heads(SplitAcc(s, cur)) ==
      (if cur == [] then WordStarts(s, true) else [cur[0]] + WordStarts(s, false))
    decreases |s|
  {
    if |s| == 0 {
      assert Heads([cur]) == (if cur == [] then [] else [cur[0]]) + Heads([]) by {
        assert [cur][1..] == [];
      }
    } else if s[0] == ' ' {
      var rest := SplitAcc(s[1..], []);
      assert SplitAcc(s, cur) == [cur] + rest;
      HeadsSplitAcc(s[1..], []);
      HeadsAppend([cur], rest);
      assert Heads([cur]) == (if cur == [] then [] else [cur[0]]) by {
        assert [cur][1..] == [];
      }
      assert WordStarts(s, true) == WordStarts(s[1..], true) == WordStarts(s, false);
    } else {
      var cur' := cur + [s[0]];
      assert SplitAcc(s, cur) == SplitAcc(s[1..], cur');
      HeadsSplitAcc(s[1..], cur');
      assert cur'[0] == (if cur == [] then s[0] else cur[0]);
      assert WordStarts(s, true) == [s[0]] + WordStarts(s[1..], false);
      assert WordStarts(s, false) == WordStarts(s[1..], false);
    }
  }

  /** The initials are the first two word-starting characters of the name,
      upper-cased: runs of spaces and leading or trailing spaces add nothing. */
  lemma InitialsAreWordStarts(name: string)
    ensures Initials(name) == FirstTwo(ToUpperAll(WordStarts(name, true)))
  {
    HeadsSplitAcc(name, []);
  }

  /** A name made of spaces only has no initials (an empty placeholder, not "?"). */
  lemma {:induction false} BlankNameHasNoInitials(name: string)
    requires forall k :: 0 <= k < |name| ==> name[k] == ' '
    ensures Initials(name) == ""
  {
    InitialsAreWordStarts(name);
    BlankHasNoWordStarts(name, true);
  }

  lemma {:induction false} BlankHasNoWordStarts(s: string, atStart: bool)
    requires forall k :: 0 <= k < |s| ==> s[k] == ' '
    ensures WordStarts(s, atStart) == []
    decreases |s|
  {
    if |s| > 0 {
      BlankHasNoWordStarts(s[1..], true);
    }
  }

  /** A two-word name gives the upper-cased first letters of both words. */
  lemma TwoWordInitials(first: string, last: string)
    requires |first| > 0 && |last| > 0 && ' ' !in first && ' ' !in last
    ensures Initials(first + " " + last) == [ToUpper(first[0]), ToUpper(last[0])]
  {
    InitialsAreWordStarts(first + " " + last);
    assert first + " " + last == first + (" " + last);
    WordStartsOfWord(first, " " + last, true);
    WordStartsOfWord(last, [], true);
    assert (" " + last)[1..] == last;
    assert last + [] == last;
    assert WordStarts(" " + last, false) == WordStarts(last, true);
    assert WordStarts(first + " " + last, true) == [first[0], last[0]];
  }

  lemma {:induction false} WordStartsOfWord(w: string, rest: string, atStart: bool)
    requires |w| > 0 && ' ' !in w
    ensures WordStarts(w + rest, atStart) == (if atStart then [w[0]] else []) + WordStarts(rest, false)
    decreases |w|
  {
    assert (w + rest)[0] == w[0];
    assert (w + rest)[1..] == w[1..] + rest;
    if |w| > 1 {
      WordStartsOfWord(w[1..], rest, false);
    } else {
      assert w[1..] + rest == rest;
    }
  }
}
