/** The text as the program reads it: a sequence of lines, each followed by
    one synthetic line separator (character 10), over a 128-character
    alphabet; and the per-character tallies FrequencyTable keeps. */
module Text {

  /** FrequencyTable.NUM_ASCII: the size of the alphabet. */
  const NUM_ASCII: nat := 128

  /** FrequencyTable.LINE_SEPARATOR: character 10. */
  const LINE_SEPARATOR: char := 10 as char

  predicate IsAscii(s: seq<char>)
  {
    forall k :: 0 <= k < |s| ==> (s[k] as int) < NUM_ASCII
  }

  predicate AllAscii(lines: seq<seq<char>>)
  {
    forall k :: 0 <= k < |lines| ==> IsAscii(lines[k])
  }

  /** The separator-normalised text: each line followed by character 10. */
  function Flatten(lines: seq<seq<char>>): seq<char>
  {
    if lines == [] then [] else lines[0] + [LINE_SEPARATOR] + Flatten(lines[1..])
  }

  /** What createTable adds to slot c: its occurrences in every line, plus
      one for every line read when c is the separator. */
  function Count(lines: seq<seq<char>>, c: char): nat
  {
    if lines == [] then 0
    else multiset(lines[0])[c] + (if c == LINE_SEPARATOR then 1 else 0) + Count(lines[1..], c)
  }

  function TotalChars(lines: seq<seq<char>>): nat
  {
    if lines == [] then 0 else |lines[0]| + TotalChars(lines[1..])
  }

  /** Reading one more line adds its occurrences and one separator. */
  lemma {:induction false} CountSnoc(lines: seq<seq<char>>, line: seq<char>, c: char)
    ensures Count(lines + [line], c) == Count(lines, c) + multiset(line)[c] + (if c == LINE_SEPARATOR then 1 else 0)
  {
    if lines == [] {
      assert lines + [line] == [line];
      assert [line][1..] == [];
    } else {
      assert (lines + [line])[1..] == lines[1..] + [line];
      CountSnoc(lines[1..], line, c);
    }
  }

  /** The tally of c is the number of times c occurs in the normalised text. */
  lemma {:induction false} CountIsOccurrences(lines: seq<seq<char>>, c: char)
    ensures Count(lines, c) == multiset(Flatten(lines))[c]
  {
    if lines != [] {
      CountIsOccurrences(lines[1..], c);
    }
  }

  /** The normalised text has one character per character read plus one
      separator per line, all in the alphabet when the lines are. */
  lemma {:induction false} FlattenFacts(lines: seq<seq<char>>)
    ensures |Flatten(lines)| == TotalChars(lines) + |lines|
    ensures AllAscii(lines) ==> IsAscii(Flatten(lines))
  {
    if lines != [] {
      FlattenFacts(lines[1..]);
      var s := Flatten(lines);
      if AllAscii(lines) {
        assert AllAscii(lines[1..]) by {
          forall k | 0 <= k < |lines[1..]| ensures IsAscii(lines[1..][k]) {
            assert lines[1..][k] == lines[k + 1];
          }
        }
        assert IsAscii(lines[0]);
        forall k | 0 <= k < |s| ensures (s[k] as int) < NUM_ASCII {
          if k > |lines[0]| {
            assert s[k] == Flatten(lines[1..])[k - |lines[0]| - 1];
          } else if k < |lines[0]| {
            assert s[k] == lines[0][k];
          }
        }
      }
    }
  }

  /** Every line read ends with a separator, so a text of at least one
      line holds it. */
  lemma SeparatorInText(lines: seq<seq<char>>)
    requires lines != []
    ensures LINE_SEPARATOR in Flatten(lines)
  {
    assert Flatten(lines)[|lines[0]|] == LINE_SEPARATOR;
  }

  /** Every character of every line is the separator; lines read by
      readLine hold no separator, so for them this says every line is empty. */
  predicate OnlySeparators(lines: seq<seq<char>>)
  {
    forall k :: 0 <= k < |lines| ==> forall i :: 0 <= i < |lines[k]| ==> lines[k][i] == LINE_SEPARATOR
  }

  /** Every character of s is the separator. */
  predicate SeparatorsOnly(s: seq<char>)
  {
    forall c :: c in s ==> c == LINE_SEPARATOR
  }

  /** The lines hold only separators exactly when the normalised text does. */
  lemma {:induction false} OnlySeparatorsFlatten(lines: seq<seq<char>>)
    ensures OnlySeparators(lines) <==> SeparatorsOnly(Flatten(lines))
  {
    if lines != [] {
      var rest := lines[1..];
      OnlySeparatorsFlatten(rest);
      var s := Flatten(lines);
      assert s == lines[0] + [LINE_SEPARATOR] + Flatten(rest);
      if OnlySeparators(lines) {
        assert OnlySeparators(rest) by {
          forall k | 0 <= k < |rest| ensures forall i :: 0 <= i < |rest[k]| ==> rest[k][i] == LINE_SEPARATOR {
            assert rest[k] == lines[k + 1];
          }
        }
        forall c | c in s ensures c == LINE_SEPARATOR {
          var i :| 0 <= i < |s| && s[i] == c;
          if i < |lines[0]| {
            assert s[i] == lines[0][i];
            assert forall j :: 0 <= j < |lines[0]| ==> lines[0][j] == LINE_SEPARATOR;
          } else if i > |lines[0]| {
            assert s[i] == Flatten(rest)[i - |lines[0]| - 1];
            assert Flatten(rest)[i - |lines[0]| - 1] in Flatten(rest);
          }
        }
      }
      if SeparatorsOnly(s) {
        forall c | c in Flatten(rest) ensures c == LINE_SEPARATOR {
          var i :| 0 <= i < |Flatten(rest)| && Flatten(rest)[i] == c;
          assert s[i + |lines[0]| + 1] == c;
          assert c in s;
        }
        forall k | 0 <= k < |lines| ensures forall i :: 0 <= i < |lines[k]| ==> lines[k][i] == LINE_SEPARATOR {
          if k == 0 {
            forall i | 0 <= i < |lines[0]| ensures lines[0][i] == LINE_SEPARATOR {
              assert s[i] == lines[0][i];
              assert lines[0][i] in s;
            }
          } else {
            assert lines[k] == rest[k - 1];
          }
        }
      }
    }
  }

  /** The sum over the first n characters of the alphabet of
      (occurrences in s) * len(character). */
  function Tally(s: seq<char>, len: char -> int, n: nat): int
    requires n <= NUM_ASCII
  {
    if n == 0 then 0
    else Tally(s, len, n - 1) + multiset(s)[(n - 1) as char] * len((n - 1) as char)
  }

  /** The sum of len over the characters of s, in order. */
  function SeqCost(s: seq<char>, len: char -> int): int
  {
    if s == [] then 0 else SeqCost(s[..|s| - 1], len) + len(s[|s| - 1])
  }

  /** Appending x adds len(x) to the tally when x lies in the counted range. */
  lemma {:induction false} TallyAppend(s: seq<char>, x: char, len: char -> int, n: nat)
    requires n <= NUM_ASCII
    ensures Tally(s + [x], len, n) == Tally(s, len, n) + (if (x as int) < n then len(x) else 0)
  {
    if n > 0 {
      TallyAppend(s, x, len, n - 1);
      var c := (n - 1) as char;
      assert multiset(s + [x])[c] == multiset(s)[c] + (if x == c then 1 else 0);
      if x == c {
        calc {
          multiset(s + [x])[c] * len(c);
          (multiset(s)[c] + 1) * len(c);
          multiset(s)[c] * len(c) + len(c);
        }
      }
    }
  }

  /** Summing per character over the whole alphabet equals summing over the
      text, when the text is in the alphabet. */
  lemma {:induction false} TallyIsSeqCost(s: seq<char>, len: char -> int)
    requires IsAscii(s)
    ensures Tally(s, len, NUM_ASCII) == SeqCost(s, len)
  {
    if s == [] {
      TallyEmpty(len, NUM_ASCII);
    } else {
      var init := s[..|s| - 1];
      assert s == init + [s[|s| - 1]];
      TallyIsSeqCost(init, len);
      TallyAppend(init, s[|s| - 1], len, NUM_ASCII);
    }
  }

  lemma {:induction false} TallyEmpty(len: char -> int, n: nat)
    requires n <= NUM_ASCII
    ensures Tally([], len, n) == 0
  {
    if n > 0 { TallyEmpty(len, n - 1); }
  }

  /** Every character costing one, the text costs its length. */
  lemma {:induction false} SeqCostOnes(s: seq<char>)
    ensures SeqCost(s, _ => 1) == |s|
  {
    if s != [] { SeqCostOnes(s[..|s| - 1]); }
  }

  /** Summed over the alphabet, the tallies give the number of characters
      read plus the number of lines. */
  lemma TotalCount(lines: seq<seq<char>>)
    requires AllAscii(lines)
    ensures Tally(Flatten(lines), _ => 1, NUM_ASCII) == TotalChars(lines) + |lines|
  {
    FlattenFacts(lines);
    TallyIsSeqCost(Flatten(lines), _ => 1);
    SeqCostOnes(Flatten(lines));
  }
}
