/**
 * A command line seen as the words a shell passes on: splitting at blanks,
 * and the regroupings that let a concatenation of literals and fields be
 * split one word at a time.
 */
module Words {
  import opened Strings

  /** A word that splitting at blanks keeps whole. */
  predicate Blankless(w: string) {
    ' ' !in w
  }

  /*
   * Glue, Glue2 and GlueFront below, like HeadRegroup and NestFive in
   * Pyexec and TailRegroup in Stages, only re-associate a concatenation so
   * that it can be split one word at a time. They say nothing about the
   * commands themselves.
   */

  /** A literal that ends in a blank is a word followed by the blank. */
  lemma Glue(lit: string, w: string, rest: string)
    requires lit == w + " "
    ensures lit + rest == w + (" " + rest)
  {
    assert (w + " ") + rest == w + (" " + rest);
  }

  /** A literal that starts and ends in a blank is a blank-led word followed by a blank. */
  lemma Glue2(lit: string, w: string, rest: string)
    requires lit == " " + w + " "
    ensures lit + rest == " " + (w + (" " + rest))
  {
    assert (" " + w + " ") + rest == " " + (w + (" " + rest));
  }

  /** A literal that starts with a word and a blank. */
  lemma GlueFront(lit: string, w: string, tail: string, rest: string)
    requires lit == w + " " + tail
    ensures lit + rest == w + (" " + (tail + rest))
  {
    assert (w + " " + tail) + rest == w + (" " + (tail + rest));
  }

  /** Four blank-free words separated by blanks. */
  lemma FourWords(a: string, b: string, c: string, d: string)
    requires Blankless(a) && Blankless(b) && Blankless(c) && Blankless(d)
    ensures Split(a + (" " + (b + (" " + (c + (" " + d))))), ' ') == [a, b, c, d]
  {
    SplitSingle(d, ' ');
    SplitWord(c, d, ' ');
    SplitWord(b, c + (" " + d), ' ');
    SplitWord(a, b + (" " + (c + (" " + d))), ' ');
  }

  /** Two blank-free words separated by a blank. */
  lemma TwoWords(a: string, b: string)
    requires Blankless(a) && Blankless(b)
    ensures Split(a + (" " + b), ' ') == [a, b]
  {
    SplitSingle(b, ' ');
    SplitWord(a, b, ' ');
  }

  /** Four blank-free words, each followed by a blank, in front of the rest. */
  lemma FourWordsThen(a: string, b: string, c: string, d: string, rest: string)
    requires Blankless(a) && Blankless(b) && Blankless(c) && Blankless(d)
    ensures Split(a + (" " + (b + (" " + (c + (" " + (d + (" " + rest))))))), ' ')
      == [a, b, c, d] + Split(rest, ' ')
  {
    SplitWord(d, rest, ' ');
    SplitWord(c, d + (" " + rest), ' ');
    SplitWord(b, c + (" " + (d + (" " + rest))), ' ');
    SplitWord(a, b + (" " + (c + (" " + (d + (" " + rest))))), ' ');
  }

  /** Every word of `ws` is blank-free. */
  predicate AllBlankless(ws: seq<string>) {
    forall i :: 0 <= i < |ws| ==> Blankless(ws[i])
  }

  /** The words of `ws`, each followed by one blank. */
  function Spaced(ws: seq<string>): string {
    if ws == [] then "" else ws[0] + (" " + Spaced(ws[1..]))
  }

  /** Spacing a list of words is spacing each part of it. */
  lemma {:induction false} SpacedAppend(a: seq<string>, b: seq<string>)
    ensures Spaced(a + b) == Spaced(a) + Spaced(b)
  {
    if a == [] {
      assert a + b == b;
    } else {
      assert (a + b)[1..] == a[1..] + b;
      SpacedAppend(a[1..], b);
      Assoc(a[0], " " + Spaced(a[1..]), Spaced(b));
      Assoc(" ", Spaced(a[1..]), Spaced(b));
    }
  }

  /** Blank-free words, each followed by a blank, split back into those words ahead of the rest. */
  lemma {:induction false} SpacedWords(ws: seq<string>, rest: string)
    requires AllBlankless(ws)
    ensures Split(Spaced(ws) + rest, ' ') == ws + Split(rest, ' ')
  {
    if ws == [] {
      assert Spaced(ws) + rest == rest;
    } else {
      SpacedWords(ws[1..], rest);
      assert Spaced(ws) + rest == ws[0] + ([' '] + (Spaced(ws[1..]) + rest));
      SplitWord(ws[0], Spaced(ws[1..]) + rest, ' ');
      assert ws == [ws[0]] + ws[1..];
    }
  }

  /** A clause that opens with a blank. */
  predicate BlankLed(c: string) {
    c != [] && c[0] == ' '
  }

  /** A blank-free word followed by a blank-led clause. */
  lemma WordBeforeClause(w: string, c: string)
    requires Blankless(w) && BlankLed(c)
    ensures Split(w + c, ' ') == [w] + Split(c[1..], ' ')
  {
    assert c == " " + c[1..];
    assert w + c == w + (" " + c[1..]);
    SplitWord(w, c[1..], ' ');
  }


  /** Two blank-led clauses in a row split one after the other. */
  lemma ClausesWords(a: string, b: string)
    requires BlankLed(a) && BlankLed(b)
    ensures BlankLed(a + b)
    ensures Split((a + b)[1..], ' ') == Split(a[1..], ' ') + Split(b[1..], ' ')
  {
    assert (a + b)[1..] == a[1..] + b;
    assert b == " " + b[1..];
    SplitAtSep(a[1..], b[1..], ' ');
  }

  /** Three blank-free words, each followed by a blank, in front of the rest. */
  lemma ThreeWordsThen(a: string, b: string, c: string, rest: string)
    requires Blankless(a) && Blankless(b) && Blankless(c)
    ensures Split(a + " " + b + " " + c + " " + rest, ' ') == [a, b, c] + Split(rest, ' ')
  {
    assert a + " " + b + " " + c + " " + rest == a + (" " + (b + (" " + (c + (" " + rest)))));
    SplitWord(c, rest, ' ');
    SplitWord(b, c + (" " + rest), ' ');
    SplitWord(a, b + (" " + (c + (" " + rest))), ' ');
  }

  /**
   * A needle that ends in a blank can only occur in a command line at the
   * end of one of its words, right before the blank that follows it.
   */
  lemma {:induction false} NeedleEndsWord(s: string, u: string)
    requires Blankless(u)
    requires Contains(s, u + " ")
    ensures exists k :: 0 <= k < |Split(s, ' ')| - 1 && EndsWith(Split(s, ' ')[k], u)
    decreases |s|
  {
    var i: nat :| i <= |s| && OccursAt(s, u + " ", i);
    if i == 0 {
      var rest := s[|u| + 1..];
      assert s == u + ([' '] + rest) by {
        assert s[..|u| + 1] == u + " ";
      }
      SplitWord(u, rest, ' ');
      assert EndsWith(Split(s, ' ')[0], u);
    } else {
      var t := s[1..];
      assert [s[0]] + t == s;
      ShiftOccurs(s[0], t, u + " ", i - 1);
      NeedleEndsWord(t, u);
      var k :| 0 <= k < |Split(t, ' ')| - 1 && EndsWith(Split(t, ' ')[k], u);
      WordEndShifts(s, u, k);
      var j := if s[0] == ' ' then k + 1 else k;
      assert EndsWith(Split(s, ' ')[j], u);
    }
  }

  /** A word of `s[1..]` ending in `u`, other than the last, gives such a word of `s`, one place on when `s` starts with a blank. */
  lemma WordEndShifts(s: string, u: string, k: nat)
    requires |s| > 0
    requires k < |Split(s[1..], ' ')| - 1 && EndsWith(Split(s[1..], ' ')[k], u)
    ensures var j := if s[0] == ' ' then k + 1 else k;
      j < |Split(s, ' ')| - 1 && EndsWith(Split(s, ' ')[j], u)
  {
    ShiftedWordEnd(Split(s, ' '), Split(s[1..], ' '), s[0], u, k);
  }

  /**
   * The same step on the field lists alone: one character `c` in front
   * either opens a new empty field (a blank) or extends the first one.
   */
  lemma ShiftedWordEnd(fields: seq<string>, rest: seq<string>, c: char, u: string, k: nat)
    requires |rest| >= 1
    requires c == ' ' ==> fields == [""] + rest
    requires c != ' ' ==> fields == [[c] + rest[0]] + rest[1..]
    requires k < |rest| - 1 && EndsWith(rest[k], u)
    ensures var j := if c == ' ' then k + 1 else k;
      j < |fields| - 1 && EndsWith(fields[j], u)
  {
    if c != ' ' && k == 0 {
      EndsWithExtend([c], rest[0], u);
    }
  }
}
