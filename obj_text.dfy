/** The text primitives parseOBJ relies on: reading whitespace-separated
    words with `>>`, splitting a bundle on '/' with getline, and stoi on a
    decimal segment. Each comes with the printer it inverts. */
module ObjText {

  /** The characters `>>` skips: space, tab, newline, vertical tab, form feed, carriage return. */
  predicate IsSpace(c: char)
  {
    c == ' ' || c == '\t' || c == '\n' || c == '\r' || c as int == 11 || c as int == 12
  }

  predicate NoSpace(s: string)
  {
    forall k :: 0 <= k < |s| ==> !IsSpace(s[k])
  }

  /** The length of the run of whitespace at the start of s. */
  function SpaceLength(s: string): (n: nat)
    ensures n <= |s|
    ensures forall k :: 0 <= k < n ==> IsSpace(s[k])
    ensures n < |s| ==> !IsSpace(s[n])
  {
    if s == [] || !IsSpace(s[0]) then 0 else 1 + SpaceLength(s[1..])
  }

  /** The length of the word at the start of s: the run of non-whitespace characters. */
  function WordLength(s: string): (n: nat)
    ensures n <= |s|
    ensures NoSpace(s[..n])
    ensures n < |s| ==> IsSpace(s[n])
  {
    if s == [] || IsSpace(s[0]) then 0
    else
      var n := 1 + WordLength(s[1..]);
      assert s[..n] == [s[0]] + s[1..][..n - 1];
      n
  }

  /** The words `>>` extracts from a line, one after another, until the line is exhausted. */
  function Words(s: string): (ws: seq<string>)
    ensures forall k :: 0 <= k < |ws| ==> ws[k] != [] && NoSpace(ws[k])
    decreases |s|
  {
    var n := SpaceLength(s);
    if n == |s| then []
    else
      var rest := s[n..];
      var m := WordLength(rest);
      [rest[..m]] + Words(rest[m..])
  }

  /** Words separated by single spaces. */
  function Unwords(ws: seq<string>): string
  {
    if ws == [] then []
    else if |ws| == 1 then ws[0]
    else ws[0] + " " + Unwords(ws[1..])
  }

  lemma WordLengthOfWord(w: string, t: string)
    requires NoSpace(w) && (t == [] || IsSpace(t[0]))
    ensures WordLength(w + t) == |w|
    decreases |w|
  {
    if w != [] {
      assert (w + t)[1..] == w[1..] + t;
      WordLengthOfWord(w[1..], t);
    } else {
      assert w + t == t;
    }
  }

  lemma {:induction false} WordsAfterSpace(t: string)
    requires t == [] || !IsSpace(t[0])
    ensures Words(" " + t) == Words(t)
  {
    assert SpaceLength(" " + t) == 1 by {
      assert (" " + t)[1..] == t;
    }
    assert (" " + t)[1..] == t;
  }

  /** A word followed by whitespace or the end of the line is read as that
      word, and reading goes on after it. */
  lemma WordsOfWordThen(w: string, tail: string)
    requires w != [] && NoSpace(w) && (tail == [] || IsSpace(tail[0]))
    ensures Words(w + tail) == [w] + Words(tail)
  {
    WordLengthOfWord(w, tail);
    assert SpaceLength(w + tail) == 0;
    assert (w + tail)[0..] == w + tail;
    assert (w + tail)[..|w|] == w;
    assert (w + tail)[|w|..] == tail;
  }

  /** Reading back words written with single spaces gives the words. */
  lemma {:induction false} WordsUnwords(ws: seq<string>)
    requires forall k :: 0 <= k < |ws| ==> ws[k] != [] && NoSpace(ws[k])
    ensures Words(Unwords(ws)) == ws
    decreases |ws|
  {
    if |ws| == 1 {
      WordsOfWordThen(ws[0], "");
      assert ws[0] + "" == ws[0];
    } else if |ws| > 1 {
      WordsUnwords(ws[1..]);
      WordsUnwordsStep(ws);
    }
  }

  /** The first word, then the words after it. */
  lemma WordsUnwordsStep(ws: seq<string>)
    requires |ws| > 1 && ws[0] != [] && NoSpace(ws[0]) && ws[1] != []
    requires Words(Unwords(ws[1..])) == ws[1..]
    ensures Words(Unwords(ws)) == ws
  {
    var rest := Unwords(ws[1..]);
    assert Words(" " + rest) == ws[1..] by {
      UnwordsStart(ws[1..]);
      WordsAfterSpace(rest);
    }
    assert Words(Unwords(ws)) == [ws[0]] + Words(" " + rest) by {
      assert Unwords(ws) == ws[0] + (" " + rest);
      WordsOfWordThen(ws[0], " " + rest);
    }
    assert [ws[0]] + ws[1..] == ws;
  }

  lemma UnwordsStart(ws: seq<string>)
    requires ws != [] && ws[0] != []
    ensures Unwords(ws) != [] && Unwords(ws)[0] == ws[0][0]
  {
  }

  // ---------------------------------------------------------------------
  // getline(stream, segment, '/')

  /** The position of the first '/' in s, or |s| when there is none. */
  function SlashIndex(s: string): (k: nat)
    ensures k <= |s|
    ensures forall i :: 0 <= i < k ==> s[i] != '/'
    ensures k < |s| ==> s[k] == '/'
  {
    if s == [] || s[0] == '/' then 0 else 1 + SlashIndex(s[1..])
  }

  /** The segments repeated getline with delimiter '/' yields: each '/' ends a
      segment, and an empty remainder after the last '/' yields none. */
  function Segments(s: string): (segs: seq<string>)
    ensures forall k :: 0 <= k < |segs| ==> '/' !in segs[k]
    decreases |s|
  {
    if s == [] then []
    else
      var k := SlashIndex(s);
      if k == |s| then [s] else [s[..k]] + Segments(s[k + 1..])
  }

  /** Segments joined with '/'. */
  function JoinSlash(segs: seq<string>): string
  {
    if segs == [] then []
    else if |segs| == 1 then segs[0]
    else segs[0] + "/" + JoinSlash(segs[1..])
  }

  lemma SlashIndexOfSegment(seg: string, t: string)
    requires '/' !in seg && (t == [] || t[0] == '/')
    ensures SlashIndex(seg + t) == |seg|
    decreases |seg|
  {
    if seg != [] {
      assert (seg + t)[1..] == seg[1..] + t;
      SlashIndexOfSegment(seg[1..], t);
    } else {
      assert seg + t == t;
    }
  }

  /** Splitting segments joined with '/' gives the segments back, provided none
      holds a '/' and the last one is not empty (getline yields no empty
      trailing segment). */
  lemma {:induction false} SegmentsJoinSlash(segs: seq<string>)
    requires forall k :: 0 <= k < |segs| ==> '/' !in segs[k]
    requires segs != [] ==> segs[|segs| - 1] != []
    ensures Segments(JoinSlash(segs)) == segs
    decreases |segs|
  {
    if segs == [] {
    } else if |segs| == 1 {
      SlashIndexOfSegment(segs[0], "");
      assert segs[0] + "" == segs[0];
    } else {
      var seg := segs[0];
      var rest := JoinSlash(segs[1..]);
      var s := seg + "/" + rest;
      assert JoinSlash(segs) == s;
      SlashIndexOfSegment(seg, "/" + rest);
      assert seg + ("/" + rest) == s;
      assert s[..|seg|] == seg;
      assert s[|seg| + 1..] == rest;
      SegmentsJoinSlash(segs[1..]);
      assert segs[1..][|segs[1..]| - 1] == segs[|segs| - 1];
    }
  }

  /** Joining words that hold no whitespace with '/' gives a word. */
  lemma {:induction false} JoinSlashPlain(segs: seq<string>)
    requires segs != [] && forall k :: 0 <= k < |segs| ==> segs[k] != [] && NoSpace(segs[k])
    ensures JoinSlash(segs) != [] && NoSpace(JoinSlash(segs))
    decreases |segs|
  {
    if |segs| > 1 {
      JoinSlashPlain(segs[1..]);
      var s := JoinSlash(segs);
      var rest := JoinSlash(segs[1..]);
      assert s == segs[0] + "/" + rest;
      forall k | 0 <= k < |s| ensures !IsSpace(s[k]) {
        if k < |segs[0]| {
          assert s[k] == segs[0][k];
        } else if k > |segs[0]| {
          assert s[k] == rest[k - |segs[0]| - 1];
        }
      }
    }
  }

  /** An empty bundle string yields no segment at all. */
  lemma SegmentsOfEmpty()
    ensures Segments("") == []
  {
  }

  // ---------------------------------------------------------------------
  // stoi on a decimal segment

  /** INT_MAX of a 32-bit int: stoi throws out_of_range above it. */
  const IntMax: int := 0x7FFF_FFFF

  predicate IsDigit(c: char)
  {
    '0' <= c <= '9'
  }

  predicate AllDigits(s: string)
  {
    forall k :: 0 <= k < |s| ==> IsDigit(s[k])
  }

  function DigitValue(c: char): (d: nat)
    requires IsDigit(c)
    ensures d < 10
  {
    c as int - '0' as int
  }

  function DigitChar(d: nat): (c: char)
    requires d < 10
    ensures IsDigit(c) && DigitValue(c) == d
  {
    ('0' as int + d) as char
  }

  /** The number a string of decimal digits denotes, most significant digit first. */
  function DecimalValue(s: string): nat
    requires AllDigits(s)
  {
    if s == [] then 0 else 10 * DecimalValue(s[..|s| - 1]) + DigitValue(s[|s| - 1])
  }

  /** The decimal digits of n, without leading zeros. */
  function Decimal(n: nat): (s: string)
    ensures s != [] && AllDigits(s)
  {
    if n < 10 then [DigitChar(n)] else Decimal(n / 10) + [DigitChar(n % 10)]
  }

  datatype Option<T> = None | Some(value: T)

  /** stoi on a segment that is a plain run of decimal digits: its value, or
      None where stoi throws (no digits, or more than INT_MAX). */
  function Stoi(s: string): (r: Option<int>)
  {
    if s != [] && AllDigits(s) && DecimalValue(s) <= IntMax then Some(DecimalValue(s)) else None
  }

  /** stoi throws on an empty segment, which is what "1//3" yields between the slashes. */
  lemma StoiEmpty()
    ensures Stoi("") == None
  {
  }

  lemma {:induction false} DecimalValueOfDecimal(n: nat)
    ensures DecimalValue(Decimal(n)) == n
  {
    if n >= 10 {
      DecimalValueOfDecimal(n / 10);
      var s := Decimal(n);
      assert s[..|s| - 1] == Decimal(n / 10);
    }
  }

  /** stoi reads back the decimal digits of every n up to INT_MAX. */
  lemma StoiDecimal(n: nat)
    requires n <= IntMax
    ensures Stoi(Decimal(n)) == Some(n)
  {
    DecimalValueOfDecimal(n);
  }

  /** Decimal writes no '/' and no whitespace, so it can stand in a bundle token. */
  lemma DecimalIsPlain(n: nat)
    ensures '/' !in Decimal(n) && NoSpace(Decimal(n))
  {
    var s := Decimal(n);
    forall k | 0 <= k < |s| ensures s[k] != '/' && !IsSpace(s[k]) {
      assert IsDigit(s[k]);
    }
  }
}
