/** Whitespace splitting and lower-casing of article titles, as Python's
    `str.lower()` followed by `str.split()` with no separator argument
    (recommender.py, line 33). */
module Text {

  /** The characters Python's `str.isspace()` accepts; `str.split()` with no
      argument treats every run of them as one separator. */
  predicate IsSpace(c: char) {
    var n := c as int;
    || 9 <= n <= 13
    || 28 <= n <= 32
    || n == 0x85 || n == 0xA0 || n == 0x1680
    || 0x2000 <= n <= 0x200A
    || n == 0x2028 || n == 0x2029 || n == 0x202F || n == 0x205F || n == 0x3000
  }

  /** A word as `str.split()` produces it: non-empty, no whitespace inside. */
  predicate IsWord(w: string) {
    |w| > 0 && forall i :: 0 <= i < |w| ==> !IsSpace(w[i])
  }

  predicate AllSpace(s: string) {
    forall i :: 0 <= i < |s| ==> IsSpace(s[i])
  }

  /** Lower-casing of one character; only the ASCII capitals are mapped. */
  function LowerChar(c: char): char {
    if 'A' <= c <= 'Z' then (c as int + 32) as char else c
  }

  function Lower(s: string): (r: string)
    ensures |r| == |s|
    ensures forall i :: 0 <= i < |s| ==> r[i] == LowerChar(s[i])
  {
    if |s| == 0 then [] else [LowerChar(s[0])] + Lower(s[1..])
  }

  function LowerAll(ws: seq<string>): (r: seq<string>)
    ensures |r| == |ws|
    ensures forall i :: 0 <= i < |ws| ==> r[i] == Lower(ws[i])
  {
    if |ws| == 0 then [] else [Lower(ws[0])] + LowerAll(ws[1..])
  }

  /** The longest whitespace-free prefix of `s`. */
  function Word(s: string): (w: string)
    ensures w <= s
    ensures forall i :: 0 <= i < |w| ==> !IsSpace(w[i])
    ensures |w| == |s| || IsSpace(s[|w|])
  {
    if |s| == 0 || IsSpace(s[0]) then [] else [s[0]] + Word(s[1..])
  }

  /** `s.split()`: the maximal whitespace-free runs of `s`, left to right. */
  function Split(s: string): (ws: seq<string>)
    ensures |ws| <= |s|
    decreases |s|
  {
    if |s| == 0 then []
    else if IsSpace(s[0]) then Split(s[1..])
    else
      var w := Word(s);
      [w] + Split(s[|w|..])
  }

  /** Every piece `Split` returns is a word, and it returns none exactly when
      the text is all whitespace (the empty text included). */
  lemma {:induction false} SplitGivesWords(s: string)
    ensures forall i :: 0 <= i < |Split(s)| ==> IsWord(Split(s)[i])
    ensures |Split(s)| == 0 <==> AllSpace(s)
    decreases |s|
  {
    if |s| > 0 {
      if IsSpace(s[0]) {
        SplitGivesWords(s[1..]);
        assert AllSpace(s) <==> AllSpace(s[1..]) by {
          if AllSpace(s[1..]) {
            forall i | 0 <= i < |s| ensures IsSpace(s[i]) {
              if i > 0 { assert s[i] == s[1..][i - 1]; }
            }
          }
        }
      } else {
        var w := Word(s);
        SplitGivesWords(s[|w|..]);
        var rest := Split(s[|w|..]);
        assert Split(s) == [w] + rest;
        forall i | 0 <= i < |Split(s)| ensures IsWord(Split(s)[i]) {
          if i > 0 { assert Split(s)[i] == rest[i - 1]; }
        }
      }
    }
  }

  /** A leading word stops where whitespace begins, whatever follows. */
  lemma {:induction false} WordAppend(a: string, t: string)
    requires |t| == 0 || IsSpace(t[0])
    ensures Word(a + t) == Word(a)
    decreases |a|
  {
    if |a| == 0 {
      assert a + t == t;
    } else if !IsSpace(a[0]) {
      assert (a + t)[1..] == a[1..] + t;
      WordAppend(a[1..], t);
    }
  }

  /** One step of `Split` on a text that starts with a word. */
  lemma SplitWordStep(s: string)
    requires |s| > 0 && !IsSpace(s[0])
    ensures 0 < |Word(s)| <= |s|
    ensures Split(s) == [Word(s)] + Split(s[|Word(s)|..])
  {
  }

  /** The whitespace character itself starts no piece. */
  lemma SplitAtSpaceFront(c: char, b: string)
    requires IsSpace(c)
    ensures Split([c] + b) == Split(b)
  {
    assert ([c] + b)[1..] == b;
  }

  /** Leading whitespace of `a` is skipped on both sides. */
  lemma SplitAtSpaceSkip(a: string, c: char, b: string)
    requires |a| > 0 && IsSpace(a[0])
    requires Split(a[1..] + [c] + b) == Split(a[1..]) + Split(b)
    ensures Split(a + [c] + b) == Split(a) + Split(b)
  {
    var s := a + [c] + b;
    assert s[0] == a[0] && s[1..] == a[1..] + [c] + b;
  }

  lemma SliceOfAppend(a: string, t: string, k: nat)
    requires k <= |a|
    ensures (a + t)[k..] == a[k..] + t
  {
  }

  /** Text that follows a word after a break does not change that word. */
  lemma SplitWordThenBreak(a: string, t: string)
    requires |a| > 0 && !IsSpace(a[0])
    requires |t| == 0 || IsSpace(t[0])
    ensures Split(a + t) == [Word(a)] + Split(a[|Word(a)|..] + t)
  {
    SplitWordStep(a);
    WordAppend(a, t);
    assert (a + t)[0] == a[0];
    SplitWordStep(a + t);
    SliceOfAppend(a, t, |Word(a)|);
  }

  lemma AppendAssoc<T>(x: seq<T>, y: seq<T>, z: seq<T>)
    ensures x + y + z == x + (y + z)
  {
  }

  /** A leading word of `a` is the leading word on both sides. */
  lemma SplitAtSpaceWord(a: string, c: char, b: string)
    requires IsSpace(c) && |a| > 0 && !IsSpace(a[0])
    requires Split(a[|Word(a)|..] + [c] + b) == Split(a[|Word(a)|..]) + Split(b)
    ensures Split(a + [c] + b) == Split(a) + Split(b)
  {
    var w := Word(a);
    SplitWordStep(a);
    var rest := a[|w|..];
    AppendAssoc(a, [c], b);
    assert ([c] + b)[0] == c;
    SplitWordThenBreak(a, [c] + b);
    AppendAssoc(rest, [c], b);
    AppendAssoc([w], Split(rest), Split(b));
  }

  /** `split()` breaks at every whitespace character: the pieces of a text
      with whitespace in it are the pieces before it followed by the pieces
      after it, however many blanks surround it. */
  lemma {:induction false} SplitAtSpace(a: string, c: char, b: string)
    requires IsSpace(c)
    ensures Split(a + [c] + b) == Split(a) + Split(b)
    decreases |a|
  {
    if |a| == 0 {
      assert a + [c] + b == [c] + b;
      SplitAtSpaceFront(c, b);
    } else if IsSpace(a[0]) {
      SplitAtSpace(a[1..], c, b);
      SplitAtSpaceSkip(a, c, b);
    } else {
      SplitWordStep(a);
      SplitAtSpace(a[|Word(a)|..], c, b);
      SplitAtSpaceWord(a, c, b);
    }
  }

  /** A single word splits into itself. */
  lemma SplitOfWord(w: string)
    requires IsWord(w)
    ensures Split(w) == [w]
  {
    WordOfWordThenSpace(w, []);
    assert w + [] == w;
  }

  /** The words joined back together with single blanks. */
  function Join(ws: seq<string>): string {
    if |ws| == 0 then []
    else if |ws| == 1 then ws[0]
    else ws[0] + [' '] + Join(ws[1..])
  }

  /** Concatenation of a sequence of strings. */
  function Flatten(ws: seq<string>): string {
    if |ws| == 0 then [] else ws[0] + Flatten(ws[1..])
  }

  /** The characters of `s` that are not whitespace, in order. */
  function NonSpace(s: string): string {
    if |s| == 0 then []
    else if IsSpace(s[0]) then NonSpace(s[1..])
    else [s[0]] + NonSpace(s[1..])
  }

  lemma {:induction false} WordOfWordThenSpace(w: string, t: string)
    requires IsWord(w)
    requires |t| == 0 || IsSpace(t[0])
    ensures Word(w + t) == w
    decreases |w|
  {
    if |w| > 1 {
      assert (w + t)[1..] == w[1..] + t;
      WordOfWordThenSpace(w[1..], t);
    } else {
      assert (w + t)[1..] == t;
    }
  }

  /** Splitting words joined by blanks gives the words back. */
  lemma {:induction false} SplitJoin(ws: seq<string>)
    requires forall i :: 0 <= i < |ws| ==> IsWord(ws[i])
    ensures Split(Join(ws)) == ws
    decreases |ws|
  {
    if |ws| == 1 {
      WordOfWordThenSpace(ws[0], []);
      assert ws[0] + [] == ws[0];
      assert Join(ws)[|ws[0]|..] == [];
    } else if |ws| > 1 {
      var w, t := ws[0], [' '] + Join(ws[1..]);
      assert Join(ws) == w + t;
      WordOfWordThenSpace(w, t);
      assert (w + t)[|w|..] == t;
      assert Split(t) == Split(Join(ws[1..])) by { assert t[1..] == Join(ws[1..]); }
      SplitJoin(ws[1..]);
      assert ws == [w] + ws[1..];
    }
  }

  lemma {:induction false} NonSpaceAppend(a: string, b: string)
    ensures NonSpace(a + b) == NonSpace(a) + NonSpace(b)
    decreases |a|
  {
    if |a| > 0 {
      assert (a + b)[1..] == a[1..] + b;
      NonSpaceAppend(a[1..], b);
    } else {
      assert a + b == b;
    }
  }

  lemma {:induction false} NonSpaceOfWord(w: string)
    requires forall i :: 0 <= i < |w| ==> !IsSpace(w[i])
    ensures NonSpace(w) == w
    decreases |w|
  {
    if |w| > 0 {
      NonSpaceOfWord(w[1..]);
    }
  }

  /** Splitting drops exactly the whitespace: the words, glued together,
      are the non-whitespace characters of the text in order. */
  lemma {:induction false} SplitKeepsEveryLetter(s: string)
    ensures Flatten(Split(s)) == NonSpace(s)
    decreases |s|
  {
    if |s| > 0 {
      if IsSpace(s[0]) {
        SplitKeepsEveryLetter(s[1..]);
      } else {
        var w := Word(s);
        assert s == w + s[|w|..];
        SplitKeepsEveryLetter(s[|w|..]);
        NonSpaceAppend(w, s[|w|..]);
        NonSpaceOfWord(w);
      }
    }
  }

  lemma LowerCharKeepsSpace(c: char)
    ensures IsSpace(LowerChar(c)) == IsSpace(c)
  {
  }

  lemma {:induction false} WordOfLower(s: string)
    ensures Word(Lower(s)) == Lower(Word(s))
    decreases |s|
  {
    if |s| > 0 {
      LowerCharKeepsSpace(s[0]);
      assert Lower(s)[1..] == Lower(s[1..]);
      WordOfLower(s[1..]);
    }
  }

  /** Lower-casing before splitting is the same as lower-casing each word:
      the text's words are found case-insensitively. */
  lemma {:induction false} SplitOfLower(s: string)
    ensures Split(Lower(s)) == LowerAll(Split(s))
    decreases |s|
  {
    if |s| > 0 {
      LowerCharKeepsSpace(s[0]);
      assert Lower(s)[1..] == Lower(s[1..]);
      if IsSpace(s[0]) {
        SplitOfLower(s[1..]);
      } else {
        var w := Word(s);
        WordOfLower(s);
        assert Lower(s)[|w|..] == Lower(s[|w|..]);
        SplitOfLower(s[|w|..]);
      }
    }
  }
}
