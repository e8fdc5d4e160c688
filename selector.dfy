/**
 * The card template chooser: a user name picks one of five background images
 * by the sum of its UTF-16 code units modulo five, and a missing or empty name
 * gets the first image.
 */
module Selector {
  import opened Raster

  /** One UTF-16 code unit, as returned by `charCodeAt`. */
  type CodeUnit = c: int | 0 <= c < 0x1_0000

  /** The five card templates, in order. */
  const TarotBackgrounds: seq<string> := [
    "background-01.png",
    "background-02.png",
    "background-03.png",
    "background-04.png",
    "background-05.png"
  ]

  /** The sum of the code units, accumulated from the first to the last like `reduce`. */
  function Score(name: seq<CodeUnit>): (s: nat)
    ensures s <= 0xFFFF * |name|
  {
    if |name| == 0 then 0 else Score(name[..|name| - 1]) + name[|name| - 1]
  }

  /** The background for an optional user name. */
  function SelectBackground(username: Option<seq<CodeUnit>>): (name: string)
    ensures name in TarotBackgrounds
    ensures username.None? || username.value == [] ==> name == TarotBackgrounds[0]
  {
    match username
    case None => TarotBackgrounds[0]
    case Some(s) =>
      if |s| == 0 then TarotBackgrounds[0]
      else TarotBackgrounds[Score(s) % |TarotBackgrounds|]
  }

  /** The score of a concatenation is the sum of the scores. */
  lemma {:induction false} ScoreAppend(a: seq<CodeUnit>, b: seq<CodeUnit>)
    ensures Score(a + b) == Score(a) + Score(b)
    decreases |b|
  {
    if |b| == 0 {
      assert a + b == a;
    } else {
      var b' := b[..|b| - 1];
      assert (a + b)[..|a + b| - 1] == a + b';
      ScoreAppend(a, b');
    }
  }

  /** The score does not depend on the order of the characters. */
  lemma {:induction false} ScorePermutation(a: seq<CodeUnit>, b: seq<CodeUnit>)
    requires multiset(a) == multiset(b)
    ensures Score(a) == Score(b)
    decreases |a|
  {
    if |a| > 0 {
      var c, tail := a[0], a[1..];
      assert c in multiset(b);
      var j :| 0 <= j < |b| && b[j] == c;
      var front, back := b[..j], b[j + 1..];
      var rest := front + back;
      assert b == front + [c] + back;
      assert a == [c] + tail;
      RemoveShared(a, b, c, tail, front, back);
      ScorePermutation(tail, rest);
      assert Score([c]) == c by {
        assert [c][..0] == [];
      }
      ScoreAppend([c], tail);
      ScoreAppend(front, [c]);
      ScoreAppend(front + [c], back);
      ScoreAppend(front, back);
    }
  }

  /** Taking the same element out of two equal multisets leaves equal multisets. */
  lemma RemoveShared(a: seq<CodeUnit>, b: seq<CodeUnit>, c: CodeUnit,
                     tail: seq<CodeUnit>, front: seq<CodeUnit>, back: seq<CodeUnit>)
    requires multiset(a) == multiset(b)
    requires a == [c] + tail && b == front + [c] + back
    ensures multiset(tail) == multiset(front + back)
  {
    var m := multiset{c};
    assert multiset(a) == m + multiset(tail);
    assert multiset(b) == multiset(front) + m + multiset(back);
    assert multiset(front + back) == multiset(front) + multiset(back);
    assert multiset(tail) == multiset(a) - m;
  }

  /** Any non-empty name selects the template at position score mod 5, always one of the five. */
  lemma SelectedIndex(s: seq<CodeUnit>)
    requires |s| > 0
    ensures 0 <= Score(s) % 5 < 5
    ensures SelectBackground(Some(s)) == TarotBackgrounds[Score(s) % 5]
  {
  }

  /** Names that are anagrams of each other get the same template. */
  lemma AnagramsAgree(a: seq<CodeUnit>, b: seq<CodeUnit>)
    requires multiset(a) == multiset(b)
    ensures SelectBackground(Some(a)) == SelectBackground(Some(b))
  {
    ScorePermutation(a, b);
    assert |a| == |multiset(a)| == |multiset(b)| == |b|;
  }

  /** Appending a character moves the choice on by that character's code unit, modulo 5. */
  lemma AppendShifts(s: seq<CodeUnit>, c: CodeUnit)
    ensures Score(s + [c]) % 5 == (Score(s) % 5 + c) % 5
  {
    ScoreAppend(s, [c]);
    assert Score([c]) == c by {
      assert [c][..0] == [];
    }
  }

  /** "abc" has score 97 + 98 + 99 = 294, and 294 mod 5 = 4 picks the fifth template. */
  lemma AbcExample()
    ensures SelectBackground(Some(['a' as int, 'b' as int, 'c' as int])) == "background-05.png"
  {
    var s: seq<CodeUnit> := ['a' as int, 'b' as int, 'c' as int];
    assert Score(s[..1]) == 97 by {
      assert s[..1][..0] == [];
    }
    assert Score(s[..2]) == 97 + 98 by {
      assert s[..2][..1] == s[..1];
    }
    assert Score(s) == 294 by {
      assert s[..3][..2] == s[..2] && s[..3] == s;
    }
  }
}
