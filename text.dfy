/** Text operations of the source: `str.lower()` and the substring test `needle in hay`. */
module Text {

  /** Case folding of one character; only ASCII letters are folded. */
  function LowerChar(c: char): char
  {
    if 'A' <= c <= 'Z' then (c as int + 32) as char else c
  }

  /** `s.lower()` */
  function Lower(s: string): (r: string)
    ensures |r| == |s|
  {
    seq(|s|, i requires 0 <= i < |s| => LowerChar(s[i]))
  }

  /**
   * What `lower()` does to ASCII text: every upper-case letter becomes its
   * lower-case counterpart, nothing else changes, and no upper-case letter
   * is left.
   */
  lemma LowerMeaning(s: string)
    ensures forall i :: 0 <= i < |s| ==> !('A' <= Lower(s)[i] <= 'Z')
    ensures forall i :: 0 <= i < |s| && 'A' <= s[i] <= 'Z' ==> Lower(s)[i] as int == s[i] as int + 32
    ensures forall i :: 0 <= i < |s| && !('A' <= s[i] <= 'Z') ==> Lower(s)[i] == s[i]
  {
  }

  /** `needle` sits in `hay` at position `i`. */
  ghost predicate OccursAt(hay: string, needle: string, i: int)
  {
    0 <= i && i + |needle| <= |hay| && hay[i..i + |needle|] == needle
  }

  /** An occurrence in the tail of `hay` is an occurrence in `hay`, one place further on. */
  lemma OccursInTail(hay: string, needle: string, j: int)
    requires hay != [] && 0 <= j
    ensures OccursAt(hay[1..], needle, j) <==> OccursAt(hay, needle, j + 1)
  {
    if j + |needle| <= |hay| - 1 {
      assert hay[1..][j..j + |needle|] == hay[j + 1..j + 1 + |needle|];
    }
  }

  /** Python's `needle in hay`, scanning from the left. */
  function Contains(hay: string, needle: string): (r: bool)
    ensures r <==> exists i :: OccursAt(hay, needle, i)
    decreases |hay|
  {
    if |needle| <= |hay| && hay[..|needle|] == needle then
      assert OccursAt(hay, needle, 0);
      true
    else if hay == [] then
      false
    else
      var r := Contains(hay[1..], needle);
      assert r ==> exists i :: OccursAt(hay, needle, i) by {
        if r {
          var j :| OccursAt(hay[1..], needle, j);
          OccursInTail(hay, needle, j);
        }
      }
      assert (exists i :: OccursAt(hay, needle, i)) ==> r by {
        if exists i :: OccursAt(hay, needle, i) {
          var i :| OccursAt(hay, needle, i);
          assert i != 0;
          OccursInTail(hay, needle, i - 1);
        }
      }
      r
  }

  /** `keyword.lower() in field.lower()`: the keyword test of both filters, blind to case. */
  function KeywordIn(keyword: string, field: string): (r: bool)
    ensures r <==> exists i :: OccursAt(Lower(field), Lower(keyword), i)
    ensures keyword == "" ==> r
    ensures r ==> |keyword| <= |field|
  {
    assert OccursAt(Lower(field), Lower(keyword), 0) <== keyword == "";
    Contains(Lower(field), Lower(keyword))
  }

  lemma LowerAppend(a: string, b: string)
    ensures Lower(a + b) == Lower(a) + Lower(b)
  {
  }

  /** A keyword with a letter that appears in no case anywhere in the field is not in it. */
  lemma KeywordMissingLetter(keyword: string, field: string, k: nat)
    requires k < |keyword| && forall i :: 0 <= i < |field| ==> LowerChar(field[i]) != LowerChar(keyword[k])
    ensures !KeywordIn(keyword, field)
  {
    forall i | 0 <= i && i + |keyword| <= |field|
      ensures !OccursAt(Lower(field), Lower(keyword), i)
    {
      assert Lower(field)[i..i + |keyword|][k] != Lower(keyword)[k];
    }
  }

  /** A field holds the keyword when some part of it is the keyword, whatever the case of either. */
  lemma KeywordInMiddle(keyword: string, before: string, word: string, after: string)
    requires Lower(word) == Lower(keyword)
    ensures KeywordIn(keyword, before + word + after)
  {
    LowerAppend(before, word);
    LowerAppend(before + word, after);
    var hay := Lower(before + word + after);
    assert hay == Lower(before) + Lower(keyword) + Lower(after);
    assert hay[|before|..|before| + |keyword|] == Lower(keyword);
    assert OccursAt(hay, Lower(keyword), |before|);
  }

  /**
   * The continue gate of the pager compares `answer.lower()` with a single
   * space; no other answer folds to it.
   */
  lemma LowerIsSpace(answer: string)
    ensures Lower(answer) == " " <==> answer == " "
  {
    if Lower(answer) == " " {
      assert Lower(answer)[0] == LowerChar(answer[0]) == ' ';
      assert answer == [answer[0]];
    }
  }
}
