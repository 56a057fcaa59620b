/** The Python string operations the engine and the token endpoint rely on. */
module Text {

  /** str.isspace on one character, as used by strip() and split(). */
  predicate IsSpace(c: char) {
    var n := c as int;
    || 0x09 <= n <= 0x0d || 0x1c <= n <= 0x20 || n == 0x85 || n == 0xa0
    || n == 0x1680 || 0x2000 <= n <= 0x200a || n == 0x2028 || n == 0x2029
    || n == 0x202f || n == 0x205f || n == 0x3000
  }

  /** What Python calls whitespace, code point by code point. */
  lemma SpacesAre(c: char)
    ensures IsSpace(c) <==> c as int in {
              9, 10, 11, 12, 13, 28, 29, 30, 31, 32, 0x85, 0xa0, 0x1680,
              0x2000, 0x2001, 0x2002, 0x2003, 0x2004, 0x2005, 0x2006, 0x2007, 0x2008, 0x2009, 0x200a,
              0x2028, 0x2029, 0x202f, 0x205f, 0x3000}
  {
  }

  predicate Blank(s: string) { forall c | c in s :: IsSpace(c) }

  /** No whitespace at either end. */
  predicate Trimmed(s: string) { s != "" ==> !IsSpace(s[0]) && !IsSpace(s[|s| - 1]) }

  function LStrip(s: string): string {
    if s != "" && IsSpace(s[0]) then LStrip(s[1..]) else s
  }

  function RStrip(s: string): string {
    if s != "" && IsSpace(s[|s| - 1]) then RStrip(s[..|s| - 1]) else s
  }

  /** s.strip() */
  function Strip(s: string): string { RStrip(LStrip(s)) }

  lemma {:induction false} LStripPadded(pad: string, s: string)
    requires Blank(pad) && (s != "" ==> !IsSpace(s[0]))
    ensures LStrip(pad + s) == s
  {
    if pad == "" {
      assert pad + s == s;
    } else {
      assert pad[0] in pad && (pad + s)[1..] == pad[1..] + s;
      LStripPadded(pad[1..], s);
    }
  }

  lemma {:induction false} RStripPadded(s: string, pad: string)
    requires Blank(pad) && (s != "" ==> !IsSpace(s[|s| - 1]))
    ensures RStrip(s + pad) == s
  {
    if pad == "" {
      assert s + pad == s;
    } else {
      var n := |pad| - 1;
      assert pad[n] in pad && (s + pad)[..|s + pad| - 1] == s + pad[..n];
      RStripPadded(s, pad[..n]);
    }
  }

  /** strip() removes exactly the padding around a trimmed text. */
  lemma StripPadded(before: string, s: string, after: string)
    requires Blank(before) && Blank(after) && s != "" && Trimmed(s)
    ensures Strip(before + s + after) == s
  {
    assert before + s + after == before + (s + after);
    LStripPadded(before, s + after);
    RStripPadded(s, after);
  }

  predicate HasPrefix(s: string, prefix: string) { prefix <= s }

  /** s.split(c, 1)[0] */
  function Before(s: string, c: char): string {
    if s == "" || s[0] == c then "" else [s[0]] + Before(s[1..], c)
  }

  /** s.split(c, 1)[1], or "" when c does not occur. */
  function After(s: string, c: char): string {
    if s == "" then "" else if s[0] == c then s[1..] else After(s[1..], c)
  }

  lemma {:induction false} BeforeAfter(head: string, c: char, rest: string)
    requires c !in head
    ensures Before(head + [c] + rest, c) == head
    ensures After(head + [c] + rest, c) == rest
    ensures Before(head, c) == head
  {
    if head != "" {
      assert (head + [c] + rest)[1..] == head[1..] + [c] + rest;
      BeforeAfter(head[1..], c, rest);
    }
  }

  /** The text before the first c is this head exactly when the text is the head, or goes on
      with c after it. */
  lemma {:induction false} BeforeExactly(s: string, c: char, head: string)
    requires c !in head
    ensures Before(s, c) == head <==> s == head || head + [c] <= s
  {
    if s == "" || s[0] == c {
    } else if head == "" {
      assert s != [] && ([] + [c])[0] == c;
    } else {
      BeforeExactly(s[1..], c, head[1..]);
      assert s == [s[0]] + s[1..] && head == [head[0]] + head[1..];
      assert (head + [c])[1..] == head[1..] + [c];
      if head + [c] <= s {
        assert head[0] == s[0] && (head + [c])[1..] <= s[1..];
      }
      if s[0] == head[0] && head[1..] + [c] <= s[1..] {
        assert head + [c] == [head[0]] + (head[1..] + [c]) <= s;
      }
    }
  }

  /** s.split(c): every piece, empty ones included. */
  function Split(s: string, c: char): (pieces: seq<string>)
    ensures |pieces| > 0
  {
    if s == "" then [""]
    else
      var rest := Split(s[1..], c);
      if s[0] == c then [""] + rest else [[s[0]] + rest[0]] + rest[1..]
  }

  /** sep.join(pieces) */
  function Join(pieces: seq<string>, sep: string): string {
    if pieces == [] then ""
    else if |pieces| == 1 then pieces[0]
    else pieces[0] + sep + Join(pieces[1..], sep)
  }

  lemma {:induction false} SplitHead(head: string, c: char, rest: string)
    requires c !in head
    ensures Split(head + [c] + rest, c) == [head] + Split(rest, c)
  {
    if head == "" {
      assert head + [c] + rest == [c] + rest && ([c] + rest)[1..] == rest;
    } else {
      assert (head + [c] + rest)[1..] == head[1..] + [c] + rest;
      SplitHead(head[1..], c, rest);
      assert [head[0]] + head[1..] == head;
    }
  }

  lemma {:induction false} SplitUncut(s: string, c: char)
    requires c !in s
    ensures Split(s, c) == [s]
  {
    if s != "" {
      assert s[0] in s && [s[0]] + s[1..] == s;
      SplitUncut(s[1..], c);
    }
  }

  /** Splitting undoes joining. */
  lemma {:induction false} SplitOfJoin(pieces: seq<string>, c: char)
    requires pieces != [] && forall p | p in pieces :: c !in p
    ensures Split(Join(pieces, [c]), c) == pieces
  {
    assert pieces[0] in pieces;
    if |pieces| == 1 {
      SplitUncut(pieces[0], c);
    } else {
      SplitOfJoin(pieces[1..], c);
      SplitHead(pieces[0], c, Join(pieces[1..], [c]));
    }
  }

  lemma JoinStep(first: string, rest: seq<string>, sep: string)
    ensures Join([first] + rest, sep) == if rest == [] then first else first + sep + Join(rest, sep)
  {
    assert ([first] + rest)[1..] == rest;
  }

  /** Joining undoes splitting, and no piece contains the separator: with `SplitOfJoin` this
      leaves only one way to split a text. */
  lemma {:induction false} JoinOfSplit(s: string, c: char)
    ensures Join(Split(s, c), [c]) == s
    ensures forall p | p in Split(s, c) :: c !in p
  {
    if s == "" {
      assert Join([""], [c]) == "";
    } else {
      hide Join;
      JoinOfSplit(s[1..], c);
      var rest := Split(s[1..], c);
      assert rest[0] in rest && rest == [rest[0]] + rest[1..] && s == [s[0]] + s[1..];
      if s[0] == c {
        JoinStep("", rest, [c]);
      } else {
        JoinStep(rest[0], rest[1..], [c]);
        JoinStep([s[0]] + rest[0], rest[1..], [c]);
      }
    }
  }

  /** A word: non-empty, without whitespace. */
  predicate IsWord(w: string) { w != "" && forall c | c in w :: !IsSpace(c) }

  /** How many characters at the start of s belong to its first word. */
  function WordLength(s: string): (n: nat)
    ensures n <= |s| && (forall i | 0 <= i < n :: !IsSpace(s[i])) && (n < |s| ==> IsSpace(s[n]))
  {
    if s == "" || IsSpace(s[0]) then 0 else 1 + WordLength(s[1..])
  }

  /** s.split(): the words between runs of whitespace. */
  function Words(s: string): (words: seq<string>)
    ensures forall w | w in words :: IsWord(w)
    decreases |s|
  {
    if s == "" then []
    else if IsSpace(s[0]) then Words(s[1..])
    else var n := WordLength(s); [s[..n]] + Words(s[n..])
  }

  lemma WordsOfWord(w: string, rest: string)
    requires IsWord(w) && (rest != "" ==> IsSpace(rest[0]))
    ensures Words(w + rest) == [w] + Words(rest)
  {
    var s := w + rest;
    assert s[0] == w[0] && w[0] in w;
    var n := WordLength(s);
    assert forall i | 0 <= i < |w| :: s[i] == w[i] && !IsSpace(w[i]);
    assert |w| < |s| ==> s[|w|] == rest[0];
    assert n == |w| && s[..n] == w && s[n..] == rest;
  }

  /** Words with any padding around them, and some between them. */
  ghost function Padded(words: seq<string>, pads: seq<string>): string
    requires |pads| == |words| + 1
  {
    if words == [] then pads[0] else pads[0] + words[0] + Padded(words[1..], pads[1..])
  }

  lemma {:induction false} WordsOfBlank(pad: string, rest: string)
    requires Blank(pad)
    ensures Words(pad + rest) == Words(rest)
  {
    if pad == "" {
      assert pad + rest == rest;
    } else {
      assert pad[0] in pad && (pad + rest)[1..] == pad[1..] + rest;
      assert forall c | c in pad[1..] :: c in pad;
      WordsOfBlank(pad[1..], rest);
    }
  }

  /** One word with padding before it, and blank or nothing after it. */
  lemma FirstWord(pad: string, w: string, rest: string)
    requires Blank(pad) && IsWord(w) && (rest != "" ==> IsSpace(rest[0]))
    ensures Words(pad + w + rest) == [w] + Words(rest)
  {
    hide Words, IsWord, Blank;
    WordsOfBlank(pad, w + rest);
    WordsOfWord(w, rest);
    assert pad + w + rest == pad + (w + rest);
  }

  /** However a text spaces its words, splitting it gives the words, in order. */
  lemma {:induction false} WordsOfPadded(words: seq<string>, pads: seq<string>)
    requires |pads| == |words| + 1
    requires forall w | w in words :: IsWord(w)
    requires forall pad | pad in pads :: Blank(pad)
    requires forall i | 0 < i < |words| :: pads[i] != ""
    ensures Words(Padded(words, pads)) == words
  {
    hide Words, IsWord, Blank, IsSpace;
    assert pads[0] in pads;
    if words == [] {
      BlankHasNoWords(pads[0]);
    } else {
      assert words[0] in words && pads[1] in pads;
      assert forall w | w in words[1..] :: w in words;
      assert forall pad | pad in pads[1..] :: pad in pads;
      WordsOfPadded(words[1..], pads[1..]);
      PaddedStartsBlank(words[1..], pads[1..]);
      FirstWord(pads[0], words[0], Padded(words[1..], pads[1..]));
      assert words == [words[0]] + words[1..];
    }
  }

  lemma BlankHasNoWords(pad: string)
    requires Blank(pad)
    ensures Words(pad) == []
  {
    WordsOfBlank(pad, "");
    assert pad + "" == pad;
  }

  lemma PaddedStartsBlank(words: seq<string>, pads: seq<string>)
    requires |pads| == |words| + 1 && Blank(pads[0]) && (words != [] ==> pads[0] != "")
    ensures Padded(words, pads) != "" ==> IsSpace(Padded(words, pads)[0])
  {
    if pads[0] != "" { assert pads[0][0] in pads[0]; }
  }

  /** Words joined by one space split back to the same words in the same order. */
  lemma {:induction false} WordsOfJoin(words: seq<string>)
    requires forall w | w in words :: IsWord(w)
    ensures Words(Join(words, " ")) == words
  {
    hide Words, IsWord;
    if words == [] {
      BlankHasNoWords("");
    } else {
      assert words[0] in words && forall w | w in words[1..] :: w in words;
      WordsOfJoin(words[1..]);
      if |words| == 1 {
        BlankHasNoWords("");
        FirstWord("", words[0], "");
        assert "" + words[0] + "" == words[0];
      } else {
        var rest := Join(words[1..], " ");
        WordsOfBlank(" ", rest);
        FirstWord("", words[0], " " + rest);
        assert "" + words[0] + (" " + rest) == Join(words, " ");
      }
      assert words == [words[0]] + words[1..];
    }
  }

  /** Lexicographic order of code points, Python's `<=` on str. */
  predicate StringLe(s: string, t: string) {
    s == "" || (t != "" && (s[0] < t[0] || (s[0] == t[0] && StringLe(s[1..], t[1..]))))
  }

  lemma SameHead(s: string, t: string, i: nat)
    requires 0 < i <= |s| && i <= |t| && s[..i] == t[..i]
    ensures s[0] == t[0]
  {
    assert s[..i][0] == s[0] && t[..i][0] == t[0];
  }

  /** It orders by the first difference, and a text goes before its own extensions. */
  lemma {:induction false} StringLeExactly(s: string, t: string)
    ensures StringLe(s, t) <==> s <= t || exists i :: 0 <= i < |s| && i < |t| && s[..i] == t[..i] && s[i] < t[i]
  {
    if s == "" || t == "" {
    } else if s[0] != t[0] {
      assert s[..0] == t[..0];
      if i :| 0 <= i < |s| && i < |t| && s[..i] == t[..i] && s[i] < t[i] {
        if i > 0 { SameHead(s, t, i); }
      }
    } else {
      StringLeExactly(s[1..], t[1..]);
      if i :| 0 <= i < |s| - 1 && i < |t| - 1 && s[1..][..i] == t[1..][..i] && s[1..][i] < t[1..][i] {
        assert s[..i + 1] == [s[0]] + s[1..][..i] == [t[0]] + t[1..][..i] == t[..i + 1];
      }
      if i :| 0 <= i < |s| && i < |t| && s[..i] == t[..i] && s[i] < t[i] {
        assert i > 0 && s[1..][..i - 1] == s[..i][1..] == t[..i][1..] == t[1..][..i - 1];
        assert s[1..][i - 1] < t[1..][i - 1];
      }
      assert s <= t <==> s[1..] <= t[1..];
    }
  }
}
