/**
  Receiving command messages (net.c): splitting a message into words in place, and dropping a
  UDP message whose number is that of the one before it.
 */
module CommandLines {

  // ---------------------------------------------------------------- words

  const NUL: char := '\0'

  /** The text up to the first space. */
  function Word(t: string): (w: string)
    ensures |w| <= |t| && w == t[..|w|]
  {
    if t == "" || t[0] == ' ' then "" else [t[0]] + Word(t[1..])
  }

  /** The words of a text, in order: its maximal stretches without spaces. */
  function Tokens(t: string): seq<string> {
    if t == "" then []
    else if t[0] == ' ' then Tokens(t[1..])
    else
      assert |Word(t)| >= 1;
      [Word(t)] + Tokens(t[|Word(t)|..])
  }

  predicate Plain(w: string) {
    w != "" && ' ' !in w
  }

  function Spaces(k: nat): string {
    seq(k, _ => ' ')
  }

  /** Words with the given numbers of spaces before them, and one more space before each but the first. */
  function Spaced(words: seq<string>, gaps: seq<nat>): string
    requires |words| == |gaps|
  {
    if words == [] then ""
    else Spaces(gaps[0]) + words[0] + if |words| == 1 then "" else " " + Spaced(words[1..], gaps[1..])
  }

  lemma {:induction false} WordOf(w: string, rest: string)
    requires ' ' !in w && (rest == "" || rest[0] == ' ')
    ensures Word(w + rest) == w
  {
    if w == "" {
      assert w + rest == rest;
    } else {
      assert (w + rest)[1..] == w[1..] + rest;
      assert w == [w[0]] + w[1..];
      WordOf(w[1..], rest);
    }
  }

  lemma {:induction false} TokensSkip(k: nat, t: string)
    ensures Tokens(Spaces(k) + t) == Tokens(t)
  {
    if k == 0 {
      assert Spaces(0) + t == t;
    } else {
      assert (Spaces(k) + t)[1..] == Spaces(k - 1) + t;
      TokensSkip(k - 1, t);
    }
  }

  lemma TokensFirst(w: string, rest: string)
    requires Plain(w) && (rest == "" || rest[0] == ' ')
    ensures Tokens(w + rest) == [w] + Tokens(rest)
  {
    WordOf(w, rest);
    assert (w + rest)[|w|..] == rest;
    assert (w + rest)[0] == w[0];
  }

  /** Splitting recovers the words however many spaces separate them. */
  lemma {:induction false} TokensOfSpaced(words: seq<string>, gaps: seq<nat>)
    requires |words| == |gaps| && forall w | w in words :: Plain(w)
    ensures Tokens(Spaced(words, gaps)) == words
  {
    if words != [] {
      var rest := if |words| == 1 then "" else " " + Spaced(words[1..], gaps[1..]);
      assert Spaced(words, gaps) == Spaces(gaps[0]) + (words[0] + rest);
      TokensSkip(gaps[0], words[0] + rest);
      TokensFirst(words[0], rest);
      if |words| > 1 {
        TokensOfSpaced(words[1..], gaps[1..]);
        assert rest[1..] == Spaced(words[1..], gaps[1..]);
      }
    }
  }

  // ---------------------------------------------------------------- text in a buffer

  /** The C string that starts at position i. */
  function Text(s: seq<char>, i: nat): string
    requires i <= |s|
    decreases |s| - i
  {
    if i == |s| || s[i] == NUL then "" else [s[i]] + Text(s, i + 1)
  }

  /** There is a terminator at or after i. */
  predicate Terminated(s: seq<char>, i: nat) {
    exists e :: i <= e < |s| && s[e] == NUL
  }

  lemma {:induction false} TextSame(s: seq<char>, s': seq<char>, i: nat)
    requires i <= |s| == |s'| && forall k | i <= k < |s| :: s[k] == s'[k]
    ensures Text(s, i) == Text(s', i)
    decreases |s| - i
  {
    if i < |s| && s[i] != NUL {
      TextSame(s, s', i + 1);
    }
  }

  /** Spaces at the front of a text do not count. */
  lemma {:induction false} TokensAfterSpaces(s: seq<char>, p: nat, i: nat)
    requires p <= i <= |s| && forall k | p <= k < i :: s[k] == ' '
    ensures Tokens(Text(s, p)) == Tokens(Text(s, i))
    decreases i - p
  {
    if p < i {
      assert Text(s, p)[1..] == Text(s, p + 1);
      TokensAfterSpaces(s, p + 1, i);
    }
  }

  lemma TextNext(s: seq<char>, i: nat)
    requires i < |s| && s[i] != NUL
    ensures Text(s, i) == [s[i]] + Text(s, i + 1)
  {}

  lemma {:induction false} TextSplit(s: seq<char>, i: nat, j: nat)
    requires i <= j <= |s| && forall k | i <= k < j :: s[k] != NUL
    ensures Text(s, i) == s[i..j] + Text(s, j)
    decreases j - i
  {
    if i == j {
      assert s[i..j] + Text(s, j) == Text(s, j);
    } else {
      TextNext(s, i);
      hide Text;
      TextSplit(s, i + 1, j);
      assert s[i..j] == [s[i]] + s[i + 1..j];
      assert [s[i]] + (s[i + 1..j] + Text(s, j)) == ([s[i]] + s[i + 1..j]) + Text(s, j);
    }
  }

  /** A word in the buffer, ended by a space or the terminator, and what follows it. */
  lemma FirstToken(s: seq<char>, i: nat, j: nat)
    requires i < j < |s| && (forall k | i <= k < j :: s[k] != NUL && s[k] != ' ') && (s[j] == ' ' || s[j] == NUL)
    ensures Tokens(Text(s, i)) == [s[i..j]] + Tokens(Text(s, j))
    ensures s[j] == ' ' ==> Tokens(Text(s, j)) == Tokens(Text(s, j + 1))
  {
    TextSplit(s, i, j);
    assert ' ' !in s[i..j];
    TokensFirst(s[i..j], Text(s, j));
    if s[j] == ' ' {
      TokensAfterSpaces(s, j, j + 1);
    }
  }

  lemma WordText(s: seq<char>, i: nat, j: nat)
    requires i <= j < |s| && (forall k | i <= k < j :: s[k] != NUL) && s[j] == NUL
    ensures Text(s, i) == s[i..j]
  {
    TextSplit(s, i, j);
    assert s[i..j] + "" == s[i..j];
  }

  lemma NoText(s: seq<char>, i: nat)
    requires i < |s| && s[i] == NUL
    ensures Text(s, i) == "" && Tokens(Text(s, i)) == []
  {}

  /**
    strtok with " ": finds the next word from position p, ends it in place, and says where
    to go on.  The word is -1 when there is none.
   */
  method Strtok(a: array<char>, p: nat) returns (token: int, next: nat)
    requires p < a.Length && Terminated(a[..], p)
    modifies a
    ensures p <= next < a.Length && Terminated(a[..], next)
    ensures forall k | 0 <= k < a.Length && (k < p || k >= next) :: a[k] == old(a[k])
    ensures token == -1 <==> Tokens(old(Text(a[..], p))) == []
    ensures token == -1 ==> Tokens(Text(a[..], next)) == []
    ensures token != -1 ==>
      && p <= token < next
      && Text(a[..], token) == Tokens(old(Text(a[..], p)))[0]
      && Tokens(Text(a[..], next)) == Tokens(old(Text(a[..], p)))[1..]
    ensures next + |Text(a[..], next)| <= p + |old(Text(a[..], p))|
  {
    ghost var s := a[..];
    ghost var e :| p <= e < a.Length && s[e] == NUL;
    hide Text, Tokens;
    var i := p;
    while a[i] == ' '
      invariant p <= i <= e && a[..] == s && forall k | p <= k < i :: s[k] == ' '
      decreases e - i
    {
      i := i + 1;
    }
    TokensAfterSpaces(s, p, i);
    TextSplit(s, p, i);
    if a[i] == NUL {
      NoText(s, i);
      return -1, i;
    }
    var j := i;
    while a[j] != ' ' && a[j] != NUL
      invariant i <= j <= e && a[..] == s && forall k | i <= k < j :: s[k] != ' ' && s[k] != NUL
      decreases e - j
    {
      j := j + 1;
    }
    FirstToken(s, i, j);
    TextSplit(s, i, j);
    token := i;
    next := EndWord(a, i, j);
  }

  /** Ends the word from i to j in place; what remains is the text after the space, if there is one. */
  method EndWord(a: array<char>, i: nat, j: nat) returns (next: nat)
    requires i <= j < a.Length && (forall k | i <= k < j :: a[k] != NUL) && (a[j] == ' ' || a[j] == NUL) && Terminated(a[..], j)
    modifies a
    ensures next == (if old(a[j]) == NUL then j else j + 1) < a.Length && Terminated(a[..], next)
    ensures forall k | 0 <= k < a.Length && k != j :: a[k] == old(a[k])
    ensures Text(a[..], i) == old(a[i..j])
    ensures Text(a[..], next) == old(Text(a[..], if a[j] == NUL || j + 1 == a.Length then j else j + 1))
  {
    ghost var s := a[..];
    ghost var e :| j <= e < a.Length && s[e] == NUL;
    hide Text;
    if a[j] == NUL {
      next := j;
    } else {
      a[j] := NUL;
      next := j + 1;
      TextSame(s, a[..], j + 1);
      assert a[..][e] == NUL;
    }
    WordText(a[..], i, j);
    assert a[..][i..j] == s[i..j];
  }

  // ---------------------------------------------------------------- the message number

  predicate IsDigit(c: char) {
    '0' <= c <= '9'
  }

  /** The value of the digits at the front of t, after those read so far. */
  function Digits(t: string, value: int): int {
    if t == "" || !IsDigit(t[0]) then value else Digits(t[1..], 10 * value + (t[0] as int - '0' as int))
  }

  /** The C library's atoi on a word. */
  function Atoi(t: string): int {
    if t != "" && t[0] in {'\t', '\n', '\U{B}', '\U{C}', '\r'} then Atoi(t[1..])
    else if t != "" && t[0] == '-' then -Digits(t[1..], 0)
    else if t != "" && t[0] == '+' then Digits(t[1..], 0)
    else Digits(t, 0)
  }

  /** The decimal digits of a number. */
  function Decimal(n: nat): string {
    if n < 10 then [Digit(n)] else Decimal(n / 10) + [Digit(n % 10)]
  }

  function Digit(d: nat): char
    requires d < 10
  {
    "0123456789"[d]
  }

  /** A number as it is written at the head of a message. */
  function Written(n: int): string {
    if n < 0 then "-" + Decimal(-n) else Decimal(n)
  }

  lemma DigitIs(d: nat)
    requires d < 10
    ensures IsDigit(Digit(d)) && Digit(d) as int - '0' as int == d
  {}

  /** Reading digits, one part after the other. */
  lemma {:induction false} DigitsInParts(a: string, t: string, value: int)
    requires forall k | 0 <= k < |a| :: IsDigit(a[k])
    ensures Digits(a + t, value) == Digits(t, Digits(a, value))
  {
    if a == "" {
      assert a + t == t;
    } else {
      assert (a + t)[1..] == a[1..] + t && (a + t)[0] == a[0];
      DigitsInParts(a[1..], t, 10 * value + (a[0] as int - '0' as int));
    }
  }

  /** What is written in digits is read as the number, up to the first character that is no digit. */
  lemma {:induction false} DigitsOfDecimal(n: nat, rest: string)
    requires rest == "" || !IsDigit(rest[0])
    ensures forall k | 0 <= k < |Decimal(n)| :: IsDigit(Decimal(n)[k])
    ensures Digits(Decimal(n) + rest, 0) == n
  {
    DigitIs(n % 10);
    if n < 10 {
      assert Digits([Digit(n)] + rest, 0) == Digits(rest, n) by {
        DigitsInParts([Digit(n)], rest, 0);
      }
    } else {
      var d := [Digit(n % 10)];
      DigitsOfDecimal(n / 10, d[1..]);
      assert Decimal(n / 10) + d[1..] == Decimal(n / 10);
      DigitsInParts(Decimal(n / 10), d + rest, 0);
      DigitsInParts(d, rest, n / 10);
      assert Decimal(n) + rest == Decimal(n / 10) + (d + rest);
    }
  }

  /** atoi reads back what was written. */
  lemma AtoiOfWritten(n: int, rest: string)
    requires rest == "" || !IsDigit(rest[0])
    ensures Atoi(Written(n) + rest) == n
    ensures Written(n) != "" && ' ' !in Written(n)
  {
    var k := if n < 0 then -n else n;
    var t := Decimal(k);
    DigitsOfDecimal(k, rest);
    DecimalNotEmpty(k);
    assert IsDigit(t[0]);
    if n < 0 {
      assert ("-" + t + rest)[1..] == t + rest;
    } else {
      assert (t + rest)[0] == t[0];
    }
  }

  lemma DecimalNotEmpty(n: nat)
    ensures Decimal(n) != ""
  {}

  predicate Blank(c: char) {
    c == '\t' || c == '\n' || c as int == 11 || c as int == 12 || c == '\r'
  }

  /** Blanks before the number do not count. */
  lemma {:induction false} AtoiAfterBlanks(blanks: string, t: string)
    requires forall k | 0 <= k < |blanks| :: Blank(blanks[k])
    ensures Atoi(blanks + t) == Atoi(t)
  {
    if blanks == "" {
      assert blanks + t == t;
    } else {
      assert (blanks + t)[1..] == blanks[1..] + t && (blanks + t)[0] == blanks[0];
      AtoiAfterBlanks(blanks[1..], t);
    }
  }

  /** Nor does a plus sign. */
  lemma AtoiAfterPlus(n: nat, rest: string)
    requires rest == "" || !IsDigit(rest[0])
    ensures Atoi("+" + (Decimal(n) + rest)) == n
  {
    assert ("+" + (Decimal(n) + rest))[1..] == Decimal(n) + rest;
    DigitsOfDecimal(n, rest);
    hide Decimal, Digits;
  }

  // ---------------------------------------------------------------- the command line

  const COMMAND_ITEMS := 40
  const ITEM_SIZE := 50
  const MARK := "duplicate"

  predicate Fits(words: seq<string>) {
    |words| <= COMMAND_ITEMS && forall w | w in words :: |w| < ITEM_SIZE
  }

  /** Text without spaces is at most one word. */
  lemma {:induction false} OneWord(t: string)
    requires ' ' !in t
    ensures Tokens(t) == if t == "" then [] else [t]
  {
    if t != "" {
      assert t + "" == t;
      TokensFirst(t, "");
    }
  }

  /** After the mark has been written over a word, what follows is the tail of the mark or what followed before. */
  lemma AfterMark(s: seq<char>, s': seq<char>, token: nat, next: nat)
    requires token < next <= |s| == |s'| && token + |MARK| < |s|
    requires s'[token..token + |MARK|] == MARK && s'[token + |MARK|] == NUL
    requires forall k | token + |MARK| < k < |s| :: s'[k] == s[k]
    requires Fits(Tokens(Text(s, next))) && |Tokens(Text(s, next))| < COMMAND_ITEMS
    requires Terminated(s, next)
    ensures Text(s', token) == MARK && Terminated(s', next)
    ensures Fits(Tokens(Text(s', next))) && |Tokens(Text(s', next))| < COMMAND_ITEMS
  {
    var end := token + |MARK|;
    forall k | token <= k < end ensures s'[k] != NUL && s'[k] != ' ' {
      assert s'[k] == MARK[k - token];
    }
    WordText(s', token, end);
    if next <= end {
      WordText(s', next, end);
      OneWord(s'[next..end]);
    } else {
      var e :| next <= e < |s| && s[e] == NUL;
      assert s'[e] == NUL;
      TextSame(s, s', next);
    }
  }

  class CommandReader {
    /** The number of the last UDP message. */
    var multicastId: int
    const commandLine: array<string>

    constructor ()
      ensures Valid() && Remembered() == BOOT && fresh(commandLine)
    {
      multicastId := 1;
      commandLine := new string[COMMAND_ITEMS](_ => "");
    }

    ghost predicate Valid()
      reads this
    {
      commandLine.Length == COMMAND_ITEMS
    }

    /** strtok again: what remains is the same words. */
    method NextToken(a: array<char>, from: nat, ghost rest: seq<string>) returns (token: int, next: nat)
      requires from < a.Length && Terminated(a[..], from) && rest == Tokens(Text(a[..], from))
      modifies a
      ensures next < a.Length && Terminated(a[..], next) && -1 <= token < a.Length
      ensures rest == Current(a[..], token) + Tokens(Text(a[..], next))
      ensures token == -1 ==> rest == [] && Tokens(Text(a[..], next)) == []
      ensures token != -1 ==> token < next
      ensures next + |Text(a[..], next)| <= from + |old(Text(a[..], from))|
    {
      hide Text, Tokens, Terminated;
      token, next := Strtok(a, from);
      assert rest != [] ==> rest == [rest[0]] + rest[1..];
    }

    /** strncpy into one entry of the command line; the word fits with its terminator. */
    method Store(i: nat, word: string)
      requires Valid() && i < COMMAND_ITEMS && |word| < ITEM_SIZE
      modifies commandLine
      ensures commandLine[..] == old(commandLine[..])[i := word]
    {
      commandLine[i] := word;
    }

    /** Copies the current word, if any, and all that follow it to the front of the command line. */
    method CopyWords(a: array<char>, first: int, from: nat, ghost words: seq<string>) returns (count: nat)
      requires Valid() && from < a.Length && Terminated(a[..], from) && -1 <= first < a.Length
      requires words == Current(a[..], first) + Tokens(Text(a[..], from)) && Fits(words)
      requires first == -1 ==> Tokens(Text(a[..], from)) == []
      modifies a, commandLine
      ensures Valid() && count == |words| && commandLine[..] == words + old(commandLine[..])[count..]
    {
      hide Text, Tokens, Terminated;
      ghost var was := commandLine[..];
      var token: int, next: nat := first, from;
      count := 0;
      assert words[0..] == words && words[..0] == [];
      while token != -1
        invariant next < a.Length && Terminated(a[..], next) && -1 <= token < a.Length
        invariant count <= |words| <= COMMAND_ITEMS && words[count..] == Current(a[..], token) + Tokens(Text(a[..], next))
        invariant token == -1 ==> count == |words|
        invariant commandLine[..] == words[..count] + was[count..]
        decreases |words| - count
      {
        NextWord(words, was, count, Text(a[..], token), Tokens(Text(a[..], next)));
        Store(count, Text(a[..], token));
        count := count + 1;
        token, next := NextToken(a, next, words[count..]);
      }
    }

    /** The part for UDP messages: takes the number off the front and marks the next word if the number repeats. */
    method TakeNumber(a: array<char>, ghost m: Message) returns (token: int, next: nat)
      requires Valid() && m.kind == 0 && WellFormed(m, multicastId)
      requires a.Length > 0 && Terminated(a[..], 0) && m.text == Text(a[..], 0) && |m.text| + |MARK| + 1 <= a.Length
      modifies this`multicastId, a
      ensures multicastId == Id(m)
      ensures next < a.Length && Terminated(a[..], next) && -1 <= token < a.Length
      ensures token == -1 ==> Tokens(Text(a[..], next)) == []
      ensures Fits(Current(a[..], token) + Tokens(Text(a[..], next)))
      ensures if Id(m) == old(multicastId) then token >= 0 && Text(a[..], token) == MARK
              else Current(a[..], token) + Tokens(Text(a[..], next)) == Arguments(m)
    {
      hide Text, Tokens, Terminated, Atoi;
      ghost var words := Tokens(m.text);
      token, next := NextToken(a, 0, words);
      var id := Atoi(Text(a[..], token));
      ghost var rest := Tokens(Text(a[..], next));
      assert words[1..] == rest;
      token, next := NextToken(a, next, rest);
      FitsRest(words);
      FitsRest(rest);
      if id == multicastId {
        ghost var s := a[..];
        WriteMark(a, token);
        AfterMark(s, a[..], token, next);
      }
      multicastId := id;
    }

    /**
      get_command_line.  Messages of kind 0 come by UDP and begin with their number; if it is that of the
      UDP message before, the first word after it is overwritten by the mark.
     */
    method GetCommandLine(a: array<char>, kind: int, ghost m: Message) returns (count: nat)
      requires Valid() && a.Length > 0 && Terminated(a[..], 0) && |m.text| + |MARK| + 1 <= a.Length
      requires m == Message(Text(a[..], 0), kind) && WellFormed(m, multicastId)
      modifies this`multicastId, a, commandLine
      ensures Valid() && multicastId == IdAfter(old(multicastId), m)
      ensures Repeats(m, old(multicastId)) ==> count >= 1 && commandLine[0] == MARK
      ensures !Repeats(m, old(multicastId)) ==>
        count == |Arguments(m)| && commandLine[..] == Arguments(m) + old(commandLine[..])[count..]
    {
      hide Text, Tokens, Terminated;
      var token: int, next: nat;
      if kind == 0 {
        token, next := TakeNumber(a, m);
      } else {
        token, next := NextToken(a, 0, Tokens(m.text));
      }
      ghost var words := Current(a[..], token) + Tokens(Text(a[..], next));
      count := CopyWords(a, token, next, words);
      assert commandLine[..count] == words;
    }

    /** What the filter remembers from one message to the next. */
    ghost function Remembered(): Filter
      reads this, commandLine
      requires Valid()
    {
      Filter(multicastId, commandLine[0])
    }

    /**
      The filter at the head of command_handler: does the message get through to be executed?  If so the
      command line holds its words; a message without words leaves the line as it was, to be
      executed or not as its first word says.
     */
    method Accept(a: array<char>, kind: int, ghost m: Message) returns (accepted: bool, count: nat)
      requires Valid() && a.Length > 0 && Terminated(a[..], 0) && |m.text| + |MARK| + 1 <= a.Length
      requires m == Message(Text(a[..], 0), kind) && WellFormed(m, multicastId)
      modifies this`multicastId, a, commandLine
      ensures Valid() && Remembered() == old(Remembered()).After(m)
      ensures accepted <==> old(Remembered()).Accepts(m)
      ensures accepted ==> count == |Arguments(m)| && commandLine[..] == Arguments(m) + old(commandLine[..])[count..]
    {
      ghost var was := commandLine[..];
      count := GetCommandLine(a, kind, m);
      hide Text, Tokens, Terminated, Atoi;
      assert !Repeats(m, old(multicastId)) ==> commandLine[..][0] == if count > 0 then Arguments(m)[0] else was[0];
      accepted := commandLine[0] != MARK;
    }
  }

  lemma FitsRest(words: seq<string>)
    requires Fits(words)
    ensures words != [] ==> Fits(words[1..]) && |words[1..]| < COMMAND_ITEMS
  {
    if words != [] {
      assert forall w | w in words[1..] :: w in words;
    }
  }

  lemma NextWord(words: seq<string>, was: seq<string>, count: nat, word: string, rest: seq<string>)
    requires count <= |words| <= |was| && words[count..] == [word] + rest
    ensures count < |words| && words[count] == word && words[count + 1..] == rest
    ensures (words[..count] + was[count..])[count := word] == words[..count + 1] + was[count + 1..]
  {
    assert words[count] == words[count..][0];
    assert words[count + 1..] == words[count..][1..];
  }

  /** The word at a position of the buffer, if there is one. */
  function Current(s: seq<char>, token: int): seq<string>
    requires token <= |s|
  {
    if token < 0 then [] else [Text(s, token)]
  }

  /** strncpy(token, "duplicate", 10) */
  method WriteMark(a: array<char>, token: nat)
    requires token + |MARK| < a.Length
    modifies a
    ensures a[token..token + |MARK|] == MARK && a[token + |MARK|] == NUL
    ensures forall k | 0 <= k < a.Length && (k < token || k > token + |MARK|) :: a[k] == old(a[k])
  {
    var k := 0;
    while k < |MARK|
      invariant 0 <= k <= |MARK| && a[token..token + k] == MARK[..k]
      invariant forall j | 0 <= j < a.Length && (j < token || j > token + |MARK|) :: a[j] == old(a[j])
    {
      a[token + k] := MARK[k];
      k := k + 1;
    }
    a[token + |MARK|] := NUL;
  }

  // ---------------------------------------------------------------- messages

  datatype Message = Message(text: string, kind: int)

  function Id(m: Message): int
    requires Tokens(m.text) != []
  {
    Atoi(Tokens(m.text)[0])
  }

  /** The words of the command itself. */
  function Arguments(m: Message): seq<string> {
    var words := Tokens(m.text);
    if m.kind == 0 && words != [] then words[1..] else words
  }

  /** A UDP message with the number of the UDP message before it. */
  predicate Repeats(m: Message, id: int) {
    m.kind == 0 && Tokens(m.text) != [] && Id(m) == id
  }

  function IdAfter(id: int, m: Message): int {
    if m.kind == 0 && Tokens(m.text) != [] then Id(m) else id
  }

  /** Few and short enough words; a number on a UDP message, and a word after it to mark if it repeats. */
  predicate WellFormed(m: Message, id: int) {
    && Fits(Tokens(m.text))
    && (m.kind == 0 ==> Tokens(m.text) != [] && (Id(m) == id ==> |Tokens(m.text)| >= 2))
  }

  // ---------------------------------------------------------------- whole runs

  /** The number of the last UDP message, and the first word of the command line. */
  datatype Filter = Filter(id: int, first: string)
  {
    function After(m: Message): Filter {
      Filter(IdAfter(id, m),
             if Repeats(m, id) then MARK
             else if Arguments(m) != [] then Arguments(m)[0]
             else first)
    }

    /** Is the message executed? */
    predicate Accepts(m: Message) {
      After(m).first != MARK
    }
  }

  const BOOT := Filter(1, "")

  function AfterAll(f: Filter, ms: seq<Message>): Filter {
    if ms == [] then f else AfterAll(f, ms[..|ms| - 1]).After(ms[|ms| - 1])
  }

  /** Is the i-th of a series of messages executed? */
  predicate Executed(ms: seq<Message>, i: nat)
    requires i < |ms|
  {
    AfterAll(BOOT, ms[..i]).Accepts(ms[i])
  }

  predicate Udp(m: Message) {
    m.kind == 0 && Tokens(m.text) != []
  }

  /** Messages that are not UDP do not disturb the comparison. */
  lemma {:induction false} IdUndisturbed(f: Filter, ms: seq<Message>, j: nat)
    requires j <= |ms| && forall k | j <= k < |ms| :: !Udp(ms[k])
    ensures AfterAll(f, ms).id == AfterAll(f, ms[..j]).id
  {
    if j == |ms| {
      assert ms[..j] == ms;
    } else {
      IdUndisturbed(f, ms[..|ms| - 1], j);
      assert ms[..|ms| - 1][..j] == ms[..j];
    }
  }

  /** The command line begins with the mark after exactly the messages that are not executed. */
  lemma MarkRemains(ms: seq<Message>, i: nat)
    requires i <= |ms|
    ensures AfterAll(BOOT, ms[..i]).first == MARK <==> i > 0 && !Executed(ms, i - 1)
  {
    if i > 0 {
      assert ms[..i][..i - 1] == ms[..i - 1];
    }
  }

  /** Is the number of the UDP message i other than that of the UDP message before it, number j, or 1 if there is none? */
  predicate FreshNumber(ms: seq<Message>, i: nat, j: int)
    requires -1 <= j < i < |ms| && Udp(ms[i]) && (j >= 0 ==> Udp(ms[j]))
  {
    Id(ms[i]) != if j >= 0 then Id(ms[j]) else 1
  }

  /** Message i brings a command other than the mark or, being a bare number, follows a message that was executed. */
  predicate CommandInLine(ms: seq<Message>, i: nat)
    requires i < |ms|
  {
    if Arguments(ms[i]) != [] then Arguments(ms[i])[0] != MARK else i == 0 || Executed(ms, i - 1)
  }

  /**
    Duplicate suppression over a whole run.  A UDP message with a command is executed exactly if
    its number differs from that of the UDP message before it, whatever came in between by other
    ways.  A message that is only a number lets the command line of earlier messages decide: with a
    fresh number it is executed exactly if the message before it was.
   */
  lemma DuplicatesDropped(ms: seq<Message>, i: nat, j: int)
    requires -1 <= j < i < |ms| && Udp(ms[i]) && (j >= 0 ==> Udp(ms[j]))
    requires forall k | j < k < i :: !Udp(ms[k])
    ensures Executed(ms, i) <==> FreshNumber(ms, i, j) && CommandInLine(ms, i)
    ensures (Executed(ms, i) <==> FreshNumber(ms, i, j)) <==> (FreshNumber(ms, i, j) ==> CommandInLine(ms, i))
  {
    hide Tokens, Atoi;
    var before := ms[..i];
    IdUndisturbed(BOOT, before, j + 1);
    assert before[..j + 1] == ms[..j + 1];
    if j >= 0 {
      assert ms[..j + 1][|ms[..j + 1]| - 1] == ms[j];
    }
    MarkRemains(ms, i);
  }

  /** A UDP message that begins with the number n. */
  ghost predicate Numbered(m: Message, n: int) {
    m.kind == 0 && exists gap: nat, rest: string :: Headed(m.text, gap, n, rest)
  }

  predicate Headed(t: string, gap: nat, n: int, rest: string) {
    t == Spaces(gap) + (Written(n) + rest) && (rest == "" || rest[0] == ' ')
  }

  /** The number written is the number compared: two numbered messages have the same number exactly if they were given the same. */
  lemma NumberRead(m: Message, n: int)
    requires Numbered(m, n)
    ensures Udp(m) && Id(m) == n
  {
    var gap, rest :| Headed(m.text, gap, n, rest);
    AtoiOfWritten(n, "");
    assert Written(n) + "" == Written(n);
    TokensSkip(gap, Written(n) + rest);
    TokensFirst(Written(n), rest);
  }

  /** Duplicate suppression in terms of the numbers written: n in message i, and n' in the UDP message before it, or 1 for the first. */
  lemma NumbersCompared(ms: seq<Message>, i: nat, j: int, n: int, n': int)
    requires -1 <= j < i < |ms| && Numbered(ms[i], n) && (if j >= 0 then Numbered(ms[j], n') else n' == 1)
    requires forall k | j < k < i :: !Udp(ms[k])
    ensures Executed(ms, i) <==> n != n' && CommandInLine(ms, i)
  {
    NumberRead(ms[i], n);
    if j >= 0 { NumberRead(ms[j], n'); }
    hide *;
    DuplicatesDropped(ms, i, j);
    Fresh(ms, i, j);
  }

  lemma Fresh(ms: seq<Message>, i: nat, j: int)
    requires -1 <= j < i < |ms| && Udp(ms[i]) && (j >= 0 ==> Udp(ms[j]))
    ensures Tokens(ms[i].text) != [] && (j >= 0 ==> Tokens(ms[j].text) != [])
    ensures FreshNumber(ms, i, j) <==> Id(ms[i]) != if j >= 0 then Id(ms[j]) else 1
  {}

  lemma NumberTexts()
    ensures Tokens("7 go") == ["7", "go"] && Tokens("8") == ["8"]
    ensures Atoi("7") == 7 && Atoi("8") == 8
  {
    TokensFirst("7", " go");
    OneWord("go");
    OneWord("8");
    assert "7 go" == "7" + " go" && " go"[1..] == "go";
  }

  /** The bare number 8 after a repeated message: its number is fresh, and it is dropped. */
  lemma BareNumberDropped(ms: seq<Message>)
    requires ms == [Message("7 go", 0), Message("7 go", 0), Message("8", 0)]
    ensures forall i | 0 <= i < 3 :: Udp(ms[i]) && WellFormed(ms[i], AfterAll(BOOT, ms[..i]).id)
    ensures Executed(ms, 0) && !Executed(ms, 1)
    ensures FreshNumber(ms, 2, 1) && !Executed(ms, 2)
  {
    NumberTexts();
    hide Tokens, Atoi;
    DuplicatesDropped(ms, 0, -1);
    DuplicatesDropped(ms, 1, 0);
    DuplicatesDropped(ms, 2, 1);
  }
}
