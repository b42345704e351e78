/** The text side of the RFD900x control channel (radio/RFD900x.cpp): Arduino String
    searching and slicing, the `rocket-...-end` framing, the `&`-separated `key=value` /
    `key?` pairs, the key-to-register mapping, integer parsing and printing, and the reply
    text. Everything here is a pure function of strings. */
module AtCommands {

  const StartTag: string := "rocket"
  const EndTag: string := "end"

  /** `pat` occurs in `s` at position k. */
  predicate OccursAt(s: string, pat: string, k: nat)
  {
    k + |pat| <= |s| && s[k..k + |pat|] == pat
  }

  /** String::indexOf(pat, from): the first position at or after `from` where `pat`
      occurs, or -1. A start at or past the end gives -1 even for the empty pattern. */
  function IndexOf(s: string, pat: string, from: nat): (r: int)
    ensures r == -1 || (from <= r < |s| && OccursAt(s, pat, r))
    ensures forall k: nat :: from <= k < |s| && (r == -1 || k < r) ==> !OccursAt(s, pat, k)
    ensures from >= |s| ==> r == -1
    decreases |s| - from
  {
    if from >= |s| || from + |pat| > |s| then -1
    else if s[from..from + |pat|] == pat then from
    else IndexOf(s, pat, from + 1)
  }

  /** String::indexOf(c, from) for one character. */
  function IndexOfChar(s: string, c: char, from: nat): (r: int)
    ensures r == -1 || (from <= r < |s| && s[r] == c)
    ensures forall k :: from <= k < |s| && (r == -1 || k < r) ==> s[k] != c
    decreases |s| - from
  {
    if from >= |s| then -1
    else if s[from] == c then from
    else IndexOfChar(s, c, from + 1)
  }

  /** String::substring(left, right): the arguments are swapped when left > right, the end
      is clamped to the length, and a start at or past the end gives "". */
  function Substring(s: string, left: nat, right: nat): (t: string)
    ensures left <= right <= |s| ==> t == s[left..right]
    ensures |t| <= |s|
  {
    if left > right then Substring(s, right, left)
    else if left >= |s| then ""
    else if right > |s| then s[left..]
    else s[left..right]
  }

  predicate StartsWithDash(s: string) { |s| > 0 && s[0] == '-' }
  predicate EndsWithDash(s: string) { |s| > 0 && s[|s| - 1] == '-' }

  /** No "end" starts inside a "rocket". */
  lemma NoEndInsideStart(s: string, startIndex: nat, k: nat)
    requires OccursAt(s, StartTag, startIndex) && startIndex <= k < startIndex + |StartTag|
    ensures !OccursAt(s, EndTag, k)
  {
    var window := s[startIndex..startIndex + |StartTag|];
    assert s[k] == window[k - startIndex];
    if k + |EndTag| <= |s| {
      var found := s[k..k + |EndTag|];
      assert found[0] == s[k] && found[1] == s[k + 1];
      if k - startIndex == 4 {
        assert s[k + 1] == window[5];
      }
    }
  }

  /** An "end" found at or after a "rocket" starts after the whole of "rocket", so the
      enclosed command is never sliced backwards. */
  lemma EndFollowsStart(s: string, startIndex: nat)
    requires OccursAt(s, StartTag, startIndex)
    ensures IndexOf(s, EndTag, startIndex) == -1 || IndexOf(s, EndTag, startIndex) >= startIndex + |StartTag|
  {
    var e := IndexOf(s, EndTag, startIndex);
    if e != -1 && e < startIndex + |StartTag| {
      NoEndInsideStart(s, startIndex, e);
    }
  }

  /** Where the first "rocket" begins, or -1. */
  function CommandStart(text: string): int
  {
    IndexOf(text, StartTag, 0)
  }

  /** The text holds a whole frame: a "rocket" and, at or after it, an "end". */
  predicate Framed(text: string)
  {
    CommandStart(text) != -1 && IndexOf(text, EndTag, CommandStart(text)) != -1
  }

  function CommandEnd(text: string): nat
    requires Framed(text)
  {
    IndexOf(text, EndTag, CommandStart(text))
  }

  /** The text between the first "rocket" and the first "end" after it. */
  function FramedCommand(text: string): string
    requires Framed(text)
  {
    Substring(text, CommandStart(text) + |StartTag|, CommandEnd(text))
  }

  /** A framed text is: what comes before the first "rocket", "rocket", a command holding
      no "end", "end", and the rest. */
  lemma FramedParts(text: string)
    requires Framed(text)
    ensures CommandStart(text) + |StartTag| <= CommandEnd(text)
    ensures text == text[..CommandStart(text)] + StartTag + FramedCommand(text) + EndTag + text[CommandEnd(text) + |EndTag|..]
    ensures forall k: nat :: k < CommandStart(text) ==> !OccursAt(text, StartTag, k)
    ensures forall k: nat :: CommandStart(text) <= k < CommandEnd(text) ==> !OccursAt(text, EndTag, k)
  {
    var st := CommandStart(text);
    var e := CommandEnd(text);
    EndFollowsStart(text, st);
    var command := text[st + |StartTag|..e];
    assert FramedCommand(text) == command;
    assert text[st..st + |StartTag|] == StartTag;
    assert text[e..e + |EndTag|] == EndTag;
    assert text[..e] == text[..st] + StartTag + command;
    assert text[e..] == EndTag + text[e + |EndTag|..];
    assert text == text[..e] + text[e..];
  }

  /** The command between the dashes: substring(1, length - 1). For the one-character
      command "-" the arguments swap and the command stays "-". */
  function Inner(command: string): (t: string)
    requires StartsWithDash(command) && EndsWithDash(command)
    ensures |command| >= 2 ==> t == command[1..|command| - 1]
  {
    Substring(command, 1, |command| - 1)
  }

  lemma InnerOfSingleDash()
    ensures Inner("-") == "-"
  {
  }

  /** Where the piece starting at `from` ends: the next '&', or the end of the command. */
  function PieceEnd(command: string, from: nat): (stop: nat)
    requires from <= |command|
    ensures from <= stop <= |command|
  {
    var amp := IndexOfChar(command, '&', from);
    if amp == -1 then |command| else amp
  }

  /** PieceEnd is the next '&': the piece up to it holds none, and it is either a '&' or
      the end of the command. */
  lemma PieceEndAmpFree(command: string, from: nat)
    requires from <= |command|
    ensures forall k :: from <= k < PieceEnd(command, from) ==> command[k] != '&'
    ensures PieceEnd(command, from) < |command| ==> command[PieceEnd(command, from)] == '&'
  {
  }

  /** The pieces the parse loop visits from position `from`: up to the next '&' (or the
      end), then on after it. A trailing '&' adds no empty piece. */
  function SegmentsFrom(command: string, from: nat): (pieces: seq<string>)
    ensures from < |command| <==> pieces != []
    decreases |command| - from
  {
    if from >= |command| then []
    else
      var stop := PieceEnd(command, from);
      [command[from..stop]] + SegmentsFrom(command, stop + 1)
  }

  /** No piece holds a '&'. */
  lemma {:induction false} SegmentsFromAmpFree(command: string, from: nat)
    ensures forall i :: 0 <= i < |SegmentsFrom(command, from)| ==> '&' !in SegmentsFrom(command, from)[i]
    decreases |command| - from
  {
    if from < |command| {
      var stop := PieceEnd(command, from);
      var piece := command[from..stop];
      PieceEndAmpFree(command, from);
      assert forall k :: from <= k < stop ==> piece[k - from] == command[k];
      SegmentsFromAmpFree(command, stop + 1);
      assert SegmentsFrom(command, from) == [piece] + SegmentsFrom(command, stop + 1);
    }
  }

  function Segments(command: string): seq<string>
  {
    SegmentsFrom(command, 0)
  }

  /** The pieces joined back with '&'. */
  function Join(pieces: seq<string>): string
  {
    if pieces == [] then ""
    else if |pieces| == 1 then pieces[0]
    else pieces[0] + "&" + Join(pieces[1..])
  }

  predicate EndsWithAmp(s: string) { |s| > 0 && s[|s| - 1] == '&' }

  /** Splitting loses nothing but a final '&': the pieces joined with '&' give back the
      command from `from` on. */
  lemma JoinCons(piece: string, rest: seq<string>)
    requires rest != []
    ensures Join([piece] + rest) == piece + "&" + Join(rest)
  {
    assert ([piece] + rest)[0] == piece && ([piece] + rest)[1..] == rest;
  }

  lemma ConcatAssoc(x: string, y: string, z: string)
    ensures x + y + z == x + (y + z)
  {
  }

  /** One piece in front of pieces that join back to `after`. */
  lemma JoinStep(piece: string, rest: seq<string>, after: string)
    requires rest != [] && after != []
    requires EndsWithAmp(after) ==> Join(rest) + "&" == after
    requires !EndsWithAmp(after) ==> Join(rest) == after
    ensures EndsWithAmp(piece + "&" + after) ==> Join([piece] + rest) + "&" == piece + "&" + after
    ensures !EndsWithAmp(piece + "&" + after) ==> Join([piece] + rest) == piece + "&" + after
  {
    JoinCons(piece, rest);
    assert EndsWithAmp(piece + "&" + after) == EndsWithAmp(after);
    if EndsWithAmp(after) {
      ConcatAssoc(piece + "&", Join(rest), "&");
    }
  }

  lemma SplitAtAmp(command: string, from: nat, stop: nat)
    requires from <= stop < |command| && command[stop] == '&'
    ensures command[from..] == command[from..stop] + "&" + command[stop + 1..]
    ensures EndsWithAmp(command[from..]) == (stop + 1 == |command| || EndsWithAmp(command[stop + 1..]))
  {
    assert command[stop..stop + 1] == "&";
    assert command[from..] == command[from..stop] + command[stop..stop + 1] + command[stop + 1..];
  }

  lemma {:induction false} SegmentsFromJoin(command: string, from: nat)
    requires from <= |command|
    ensures EndsWithAmp(command[from..]) ==> Join(SegmentsFrom(command, from)) + "&" == command[from..]
    ensures !EndsWithAmp(command[from..]) ==> Join(SegmentsFrom(command, from)) == command[from..]
    decreases |command| - from
  {
    var tail := command[from..];
    var joined := Join(SegmentsFrom(command, from));
    if from == |command| {
      assert tail == [] && joined == "";
    } else {
      var stop := PieceEnd(command, from);
      var piece := command[from..stop];
      var rest := SegmentsFrom(command, stop + 1);
      assert SegmentsFrom(command, from) == [piece] + rest;
      if stop + 1 >= |command| {
        assert rest == [] && joined == piece;
        if stop == |command| {
          assert tail == piece && tail[|tail| - 1] == command[|command| - 1];
        } else {
          SplitAtAmp(command, from, stop);
          assert command[stop + 1..] == [];
          assert tail == piece + "&";
        }
      } else {
        SplitAtAmp(command, from, stop);
        SegmentsFromJoin(command, stop + 1);
        JoinStep(piece, rest, command[stop + 1..]);
      }
    }
  }

  lemma SegmentsJoin(command: string)
    ensures EndsWithAmp(command) ==> Join(Segments(command)) + "&" == command
    ensures !EndsWithAmp(command) ==> Join(Segments(command)) == command
  {
    SegmentsFromJoin(command, 0);
    assert command[0..] == command;
  }
  /** What one pair asks for: '=' is a set and takes precedence over '?', a query. */
  datatype Request = Set(key: string, value: string) | Query(key: string) | Ignored

  function ParsePair(pair: string): (r: Request)
    ensures r.Set? <==> '=' in pair
    ensures r.Query? <==> '=' !in pair && '?' in pair
  {
    var equalsIndex := IndexOfChar(pair, '=', 0);
    var questionIndex := IndexOfChar(pair, '?', 0);
    if equalsIndex != -1 then Set(pair[..equalsIndex], pair[equalsIndex + 1..])
    else if questionIndex != -1 then Query(pair[..questionIndex])
    else Ignored
  }

  /** A set splits at the first '=' and a query at the first '?': the pair is the key,
      the separator and the rest, and the key holds no separator. */
  lemma ParsePairSplits(pair: string)
    ensures ParsePair(pair).Set? ==>
      pair == ParsePair(pair).key + "=" + ParsePair(pair).value && '=' !in ParsePair(pair).key
    ensures ParsePair(pair).Query? ==>
      ParsePair(pair).key + "?" <= pair && '?' !in ParsePair(pair).key && '=' !in pair
  {
    var e := IndexOfChar(pair, '=', 0);
    if e != -1 {
      SplitAtChar(pair, '=', e);
    } else {
      var q := IndexOfChar(pair, '?', 0);
      if q != -1 {
        SplitAtChar(pair, '?', q);
        assert pair[..q + 1] == pair[..q] + "?";
      }
    }
  }

  /** At the first occurrence of c the text splits into a c-free head, c and the tail. */
  lemma SplitAtChar(s: string, c: char, i: int)
    requires i == IndexOfChar(s, c, 0) && i != -1
    ensures s == s[..i] + [c] + s[i + 1..] && c !in s[..i]
  {
    assert s[i..i + 1] == [c];
    assert s == s[..i] + s[i..i + 1] + s[i + 1..];
    forall k | 0 <= k < i
      ensures s[..i][k] != c
    {
    }
  }

  /** The converse of ParsePairSplits: a key without '=' followed by "=" and any value
      parses as that set, and a key without '=' or '?' followed by "?" as that query. */
  lemma ParseSetOf(key: string, value: string)
    requires '=' !in key
    ensures ParsePair(key + "=" + value) == Set(key, value)
  {
    var pair := key + "=" + value;
    assert pair[|key|] == '=';
    assert forall k :: 0 <= k < |key| ==> pair[k] == key[k];
    assert IndexOfChar(pair, '=', 0) == |key|;
    assert pair[..|key|] == key && pair[|key| + 1..] == value;
  }

  lemma ParseQueryOf(key: string)
    requires '=' !in key && '?' !in key
    ensures ParsePair(key + "?") == Query(key)
  {
    var pair := key + "?";
    assert pair[|key|] == '?';
    assert forall k :: 0 <= k < |key| ==> pair[k] == key[k];
    assert '=' !in pair;
    assert IndexOfChar(pair, '?', 0) == |key|;
    assert pair[..|key|] == key;
  }

  /** The keys the parser knows. */
  predicate KnownKey(key: string)
  {
    key == "netid" || key == "serialspeed" || key == "airspeed"
  }

  /** The radio register behind each key: changeNetID/getNetID use S3, changeSerialSpeed/
      getSerialSpeed S1, changeAirSpeed/getAirSpeed S2. */
  function Register(key: string): (reg: string)
    requires KnownKey(key)
    ensures reg in {"1", "2", "3"}
  {
    if key == "netid" then "3" else if key == "serialspeed" then "1" else "2"
  }

  lemma RegisterInjective(k1: string, k2: string)
    requires KnownKey(k1) && KnownKey(k2)
    ensures Register(k1) == Register(k2) <==> k1 == k2
  {
  }

  predicate IsDigit(c: char) { '0' <= c <= '9' }

  /** The characters atol skips before the number (isspace). */
  predicate IsSpace(c: char) { c == ' ' || c == '\t' || c == '\n' || c == '\r' || c == '\U{B}' || c == '\U{C}' }

  function SkipSpace(s: string): (t: string)
    ensures |t| <= |s| && t == s[|s| - |t|..]
    ensures t != [] ==> !IsSpace(t[0])
  {
    if s != [] && IsSpace(s[0]) then SkipSpace(s[1..]) else s
  }

  /** The longest prefix of digits. */
  function DigitPrefix(s: string): (d: string)
    ensures d <= s && forall i :: 0 <= i < |d| ==> IsDigit(d[i])
    ensures |d| < |s| ==> !IsDigit(s[|d|])
  {
    if s != [] && IsDigit(s[0]) then [s[0]] + DigitPrefix(s[1..]) else ""
  }

  function DigitValue(c: char): (v: nat)
    requires IsDigit(c)
    ensures v < 10
  {
    c as int - '0' as int
  }

  /** The value of a string of decimal digits. */
  function DigitsValue(d: string): nat
    requires forall i :: 0 <= i < |d| ==> IsDigit(d[i])
  {
    if d == [] then 0 else DigitsValue(d[..|d| - 1]) * 10 + DigitValue(d[|d| - 1])
  }

  /** String::toInt (atol): leading white space, an optional sign, then as many digits as
      there are; no digits means 0. */
  function ToInt(s: string): int
  {
    var t := SkipSpace(s);
    if t != [] && t[0] == '-' then -(DigitsValue(DigitPrefix(t[1..])) as int)
    else if t != [] && t[0] == '+' then DigitsValue(DigitPrefix(t[1..]))
    else DigitsValue(DigitPrefix(t))
  }

  /** String(n) for a non-negative n: its decimal digits, no leading zeros. */
  function NatDecimal(n: nat): (d: string)
    ensures |d| > 0 && forall i :: 0 <= i < |d| ==> IsDigit(d[i])
    ensures |d| > 1 ==> d[0] != '0'
  {
    var last := ['0' + (n % 10) as char];
    if n < 10 then last else NatDecimal(n / 10) + last
  }

  /** String(n): a '-' for negatives, then the digits. */
  function Decimal(n: int): (d: string)
    ensures |d| > 0
  {
    if n < 0 then "-" + NatDecimal(-n) else NatDecimal(n)
  }

  lemma {:induction false} NatDecimalValue(n: nat)
    ensures DigitsValue(NatDecimal(n)) == n
  {
    var d := NatDecimal(n);
    if n >= 10 {
      NatDecimalValue(n / 10);
      assert d[..|d| - 1] == NatDecimal(n / 10);
    }
  }

  lemma {:induction false} DigitPrefixOfDigits(d: string)
    requires forall i :: 0 <= i < |d| ==> IsDigit(d[i])
    ensures DigitPrefix(d) == d
  {
    if d != [] {
      DigitPrefixOfDigits(d[1..]);
    }
  }

  lemma SkipNoSpace(s: string)
    requires s != [] && !IsSpace(s[0])
    ensures SkipSpace(s) == s
  {
  }

  /** Parsing what String(n) prints gives n back, negatives included. */
  lemma ToIntDecimal(n: int)
    ensures ToInt(Decimal(n)) == n
  {
    var m: nat := if n < 0 then -n else n;
    var digits := NatDecimal(m);
    NatDecimalValue(m);
    DigitPrefixOfDigits(digits);
    var d := Decimal(n);
    assert IsDigit(digits[0]);
    SkipNoSpace(d);
    if n < 0 {
      assert d[1..] == digits;
    }
  }

  /** Text that starts with neither white space, a sign nor a digit reads as 0. */
  lemma ToIntNotANumber(s: string)
    requires s != [] && !IsSpace(s[0]) && !IsDigit(s[0]) && s[0] != '-' && s[0] != '+'
    ensures ToInt(s) == 0
  {
    SkipNoSpace(s);
  }

  /** String(const char*): the characters before the first NUL. */
  function CString(s: string): (t: string)
    ensures t <= s
    ensures forall k :: 0 <= k < |t| ==> t[k] != '\0'
    ensures |t| < |s| ==> s[|t|] == '\0'
  {
    var nul := IndexOfChar(s, '\0', 0);
    if nul == -1 then s else s[..nul]
  }

  /** Text without a NUL is taken whole. */
  lemma CStringWhole(s: string)
    requires forall k :: 0 <= k < |s| ==> s[k] != '\0'
    ensures CString(s) == s
  {
  }

  /** Text after a NUL is never taken: a frame hidden behind one is not seen. */
  lemma CStringHidesFrame()
    ensures Framed("\0" + StartTag + "--" + EndTag)
    ensures CString("\0" + StartTag + "--" + EndTag) == ""
  {
    var text := "\0" + StartTag + "--" + EndTag;
    assert OccursAt(text, StartTag, 1);
    assert OccursAt(text, EndTag, 9);
  }

  /** resp[16] holds at most 15 characters and its terminator. */
  const ReplyCapacity: nat := 15

  /** What a reply becomes once recv has read it into resp[16] and String(resp) has taken
      it back: at most 15 characters of what the radio sent, cut at the first NUL. */
  function Received(raw: string): (s: string)
    ensures |s| <= ReplyCapacity && s <= raw
    ensures forall k :: 0 <= k < |s| ==> s[k] != '\0'
    ensures |s| < |raw| && |s| < ReplyCapacity ==> raw[|s|] == '\0'
  {
    CString(if |raw| <= ReplyCapacity then raw else raw[..ReplyCapacity])
  }

  /** A reply of at most 15 characters without a NUL is read whole. */
  lemma ReceivedShortReply(raw: string)
    requires |raw| <= ReplyCapacity && forall k :: 0 <= k < |raw| ==> raw[k] != '\0'
    ensures Received(raw) == raw
  {
  }

  /** A reply is read as non-empty iff the radio sent something that does not start with
      NUL. */
  lemma ReceivedNonEmpty(raw: string)
    ensures Received(raw) != [] <==> raw != [] && raw[0] != '\0'
  {
    if Received(raw) != [] {
      assert Received(raw)[0] == raw[0];
    }
  }

  /** The radio's replies to the register reads of one command, in order: the i-th read
      gets replies[i], and a read past the last reply times out and reads as "". */
  function ReplyAt(replies: seq<string>, i: nat): string
  {
    if i < |replies| then replies[i] else ""
  }

  /** The replies left after n reads. */
  function Drop(replies: seq<string>, n: nat): (rest: seq<string>)
    ensures forall i: nat :: ReplyAt(rest, i) == ReplyAt(replies, n + i)
  {
    if n <= |replies| then replies[n..] else []
  }

  /** The i-th of the replies left after n reads is the (n + i)-th. */
  lemma ReplyAtDrop(replies: seq<string>, n: nat, i: nat)
    ensures ReplyAt(Drop(replies, n), i) == ReplyAt(replies, n + i)
  {
  }

  /** String::lastIndexOf(c): the last position of `c`, or -1. */
  function LastIndexOfChar(s: string, c: char): (r: int)
    ensures r == -1 || (0 <= r < |s| && s[r] == c)
    ensures forall k :: 0 <= k < |s| && k > r ==> s[k] != c
  {
    if s == [] then -1
    else if s[|s| - 1] == c then |s| - 1
    else LastIndexOfChar(s[..|s| - 1], c)
  }

  /** getParameter's reading of the radio's response: from just after the first newline
      up to the last one. With no newline at all the whole text is taken (lastIndexOf's
      -1 becomes the largest unsigned value and is clamped). */
  function ParameterValue(resp: string): string
  {
    var first := IndexOfChar(resp, '\n', 0);
    var last := LastIndexOfChar(resp, '\n');
    Substring(resp, first + 1, if last == -1 then |resp| else last)
  }

  /** An echoed command line, a value line and a final newline give back the value line,
      carriage return included; with a single newline the text read is that newline. */
  lemma ParameterValueLines(echo: string, value: string)
    requires '\n' !in echo && '\n' !in value
    ensures ParameterValue(echo + "\n" + value + "\n") == value
    ensures ParameterValue(echo + "\n") == "\n"
  {
    var resp := echo + "\n" + value + "\n";
    assert resp[|echo|] == '\n';
    assert forall k :: 0 <= k < |echo| ==> resp[k] == echo[k];
    assert forall k :: |echo| < k < |resp| - 1 ==> resp[k] == value[k - |echo| - 1];
    assert IndexOfChar(resp, '\n', 0) == |echo|;
    assert LastIndexOfChar(resp, '\n') == |resp| - 1;
    assert resp[|echo| + 1..|resp| - 1] == value;
    var one := echo + "\n";
    assert forall k :: 0 <= k < |echo| ==> one[k] == echo[k];
    assert IndexOfChar(one, '\n', 0) == |echo|;
    assert LastIndexOfChar(one, '\n') == |echo|;
    assert one[|echo|..|echo| + 1] == "\n";
  }

  /** One exchange on the radio's serial line during AT handling. */
  datatype AtEvent =
    | EnterAt                                  // "+++" (enterATMode)
    | SetParam(register: string, value: string)  // ATSn=value, then ATSn? (changeParameter)
    | QueryParam(register: string)             // ATSn? (getParameter)
    | ExitAt                                   // AT&W, ATZ (exitATMode)
    | Send(text: string)                       // the reply sent back over the link

  /** The exchange a set causes: a known key's register is sent the value as parsed by
      toInt and printed by String(int); an unknown key causes none. */
  function SetEvent(key: string, value: string): seq<AtEvent>
  {
    if KnownKey(key) then [SetParam(Register(key), Decimal(ToInt(value)))] else []
  }

  /** The exchange a query causes: a known key's register is read. */
  function QueryEvent(key: string): seq<AtEvent>
  {
    if KnownKey(key) then [QueryParam(Register(key))] else []
  }

  /** The reply line a query adds: "key=value\n" for a known key, with the value read from
      `resp`, the radio's reply to that read. */
  function QueryLine(key: string, resp: string): string
  {
    if KnownKey(key) then key + "=" + ParameterValue(Received(resp)) + "\n" else ""
  }

  /** The exchange one pair causes: sets and queries of known keys only. Each such
      exchange reads one reply from the radio: the read-back of changeParameter, or the
      read of getParameter. */
  function PairEvents(pair: string): (ev: seq<AtEvent>)
    ensures |ev| <= 1
  {
    match ParsePair(pair)
    case Set(key, value) => SetEvent(key, value)
    case Query(key) => QueryEvent(key)
    case Ignored => []
  }

  /** The reply line one pair adds, given the reply its read gets: only a query of a known
      key adds one. */
  function PairReply(pair: string, resp: string): string
  {
    match ParsePair(pair)
    case Query(key) => QueryLine(key, resp)
    case _ => ""
  }

  function EventsOf(pairs: seq<string>): seq<AtEvent>
  {
    if pairs == [] then [] else EventsOf(pairs[..|pairs| - 1]) + PairEvents(pairs[|pairs| - 1])
  }

  /** The reply lines of the pairs, each query reading the reply that follows the reads of
      the pairs before it: a pair's read is the radio's |EventsOf(before)|-th. */
  function RepliesOf(pairs: seq<string>, replies: seq<string>): string
  {
    if pairs == [] then ""
    else
      var before := pairs[..|pairs| - 1];
      RepliesOf(before, replies) + PairReply(pairs[|pairs| - 1], ReplyAt(replies, |EventsOf(before)|))
  }

  /** One more pair adds its exchange and its reply line at the end. */
  lemma PairsSnoc(done: seq<string>, pair: string, replies: seq<string>)
    ensures EventsOf(done + [pair]) == EventsOf(done) + PairEvents(pair)
    ensures RepliesOf(done + [pair], replies) ==
      RepliesOf(done, replies) + PairReply(pair, ReplyAt(replies, |EventsOf(done)|))
  {
    assert (done + [pair])[..|done|] == done;
  }

  /** The log after one more pair, in terms of the pairs handled so far. */
  lemma LogSnoc(base: seq<AtEvent>, done: seq<string>, pair: string, log: seq<AtEvent>)
    requires log == base + EventsOf(done) + PairEvents(pair)
    ensures log == base + EventsOf(done + [pair])
  {
    PairsSnoc(done, pair, []);
  }

  /** The reads after one more pair: those of the pairs before it and its own. */
  lemma ReadsSnoc(done: seq<string>, pair: string)
    ensures |EventsOf(done + [pair])| == |EventsOf(done)| + |PairEvents(pair)|
  {
    PairsSnoc(done, pair, []);
  }

  /** The reply after one more pair, whose read gets the reply after those of the pairs
      before it. */
  lemma ReplySnoc(done: seq<string>, pair: string, replies: seq<string>, reply: string)
    requires reply == "\n" + RepliesOf(done, replies) + PairReply(pair, ReplyAt(replies, |EventsOf(done)|))
    ensures reply == "\n" + RepliesOf(done + [pair], replies)
  {
    PairsSnoc(done, pair, replies);
    ConcatAssoc("\n", RepliesOf(done, replies), PairReply(pair, ReplyAt(replies, |EventsOf(done)|)));
  }

  /** One pass of the pair loop: the pieces, the log, the read count and the reply after
      one more pair, from what holds for the pairs handled so far. */
  lemma PairStep(command: string, from: nat, done: seq<string>, pair: string, replies: seq<string>,
                 base: seq<AtEvent>, log: seq<AtEvent>, readCount: nat, result: string, line: string)
    requires from < |command| && done + SegmentsFrom(command, from) == Segments(command)
    requires pair == command[from..PieceEnd(command, from)]
    requires log == base + EventsOf(done) + PairEvents(pair)
    requires readCount == |EventsOf(done)| && result == "\n" + RepliesOf(done, replies)
    requires line == PairReply(pair, ReplyAt(replies, readCount))
    ensures (done + [pair]) + SegmentsFrom(command, PieceEnd(command, from) + 1) == Segments(command)
    ensures log == base + EventsOf(done + [pair])
    ensures readCount + |PairEvents(pair)| == |EventsOf(done + [pair])|
    ensures result + line == "\n" + RepliesOf(done + [pair], replies)
  {
    SegmentsAdvance(command, from, done, pair, PieceEnd(command, from) + 1);
    LogSnoc(base, done, pair, log);
    ReadsSnoc(done, pair);
    ReplySnoc(done, pair, replies, result + line);
  }

  /** The pieces seen so far followed by those still to come: taking one more piece at
      `from` keeps that split. */
  lemma SegmentsAdvance(command: string, from: nat, done: seq<string>, piece: string, next: nat)
    requires from < |command| && done + SegmentsFrom(command, from) == Segments(command)
    requires next == PieceEnd(command, from) + 1 && piece == command[from..next - 1]
    ensures (done + [piece]) + SegmentsFrom(command, next) == Segments(command)
  {
    SegmentsStep(command, from);
    assert done + ([piece] + SegmentsFrom(command, next)) == (done + [piece]) + SegmentsFrom(command, next);
  }

  lemma SegmentsDone(command: string, from: nat, done: seq<string>)
    requires from >= |command| && done + SegmentsFrom(command, from) == Segments(command)
    ensures done == Segments(command)
  {
    assert SegmentsFrom(command, from) == [];
    assert done + [] == done;
  }

  /** The first piece from `from` on, and the pieces after it. */
  lemma SegmentsStep(command: string, from: nat)
    requires from < |command|
    ensures SegmentsFrom(command, from) ==
      [command[from..PieceEnd(command, from)]] + SegmentsFrom(command, PieceEnd(command, from) + 1)
  {
  }

  /** The exchanges and reply for an enclosed command: only a command that starts and ends
      with '-' is parsed. */
  function CommandEvents(command: string): seq<AtEvent>
  {
    if StartsWithDash(command) && EndsWithDash(command) then EventsOf(Segments(Inner(command))) else []
  }

  function CommandReply(command: string, replies: seq<string>): (reply: string)
    ensures |reply| > 0 && reply[0] == '\n'
  {
    "\n" + (if StartsWithDash(command) && EndsWithDash(command) then RepliesOf(Segments(Inner(command)), replies) else "")
  }

  lemma InnerExample(command: string, inner: string)
    requires |command| >= 2 && command == "-" + inner + "-"
    ensures Inner(command) == inner
  {
    assert command[1..|command| - 1] == inner;
  }

  lemma TwoPieces(command: string, amp: nat)
    requires amp < |command| - 1 && command[amp] == '&'
    requires forall k :: 0 <= k < |command| && k != amp ==> command[k] != '&'
    ensures Segments(command) == [command[..amp], command[amp + 1..]]
  {
    assert PieceEnd(command, 0) == amp;
    assert PieceEnd(command, amp + 1) == |command|;
    assert SegmentsFrom(command, |command| + 1) == [];
    assert SegmentsFrom(command, amp + 1) == [command[amp + 1..|command|]];
    assert command[amp + 1..|command|] == command[amp + 1..];
    assert SegmentsFrom(command, 0) == [command[0..amp]] + SegmentsFrom(command, amp + 1);
    assert command[0..amp] == command[..amp];
  }

  /** The exchanges and the reply lines follow the pairs in input order: those of a
      concatenation are those of its parts, one after the other. */
  lemma {:induction false} EventsOfAppend(a: seq<string>, b: seq<string>)
    ensures EventsOf(a + b) == EventsOf(a) + EventsOf(b)
    decreases |b|
  {
    if b != [] {
      var last := b[|b| - 1];
      assert (a + b)[..|a + b| - 1] == a + b[..|b| - 1];
      EventsOfAppend(a, b[..|b| - 1]);
    } else {
      assert a + b == a;
    }
  }

  /** One more pair after a + before reads the reply after the reads of a and of before. */
  lemma PrefixSnoc(a: seq<string>, before: seq<string>, last: string, replies: seq<string>)
    ensures RepliesOf(a + (before + [last]), replies) ==
      RepliesOf(a + before, replies) + PairReply(last, ReplyAt(Drop(replies, |EventsOf(a)|), |EventsOf(before)|))
  {
    assert a + (before + [last]) == (a + before) + [last];
    PairsSnoc(a + before, last, replies);
    EventsOfAppend(a, before);
    ReplyAtDrop(replies, |EventsOf(a)|, |EventsOf(before)|);
  }

  /** One more pair at the end of b reads the reply after all the reads before it. */
  lemma RepliesOfAppendLast(a: seq<string>, before: seq<string>, last: string, replies: seq<string>)
    requires RepliesOf(a + before, replies) == RepliesOf(a, replies) + RepliesOf(before, Drop(replies, |EventsOf(a)|))
    ensures RepliesOf(a + (before + [last]), replies) ==
      RepliesOf(a, replies) + RepliesOf(before + [last], Drop(replies, |EventsOf(a)|))
  {
    var rest := Drop(replies, |EventsOf(a)|);
    var z := PairReply(last, ReplyAt(rest, |EventsOf(before)|));
    PrefixSnoc(a, before, last, replies);
    PairsSnoc(before, last, rest);
    ConcatAssoc(RepliesOf(a, replies), RepliesOf(before, rest), z);
  }

  /** The pairs of b read the replies left after the reads of the pairs of a. */
  lemma {:induction false} RepliesOfAppend(a: seq<string>, b: seq<string>, replies: seq<string>)
    ensures RepliesOf(a + b, replies) == RepliesOf(a, replies) + RepliesOf(b, Drop(replies, |EventsOf(a)|))
    decreases |b|
  {
    if b != [] {
      var before, last := b[..|b| - 1], b[|b| - 1];
      assert b == before + [last];
      RepliesOfAppend(a, before, replies);
      RepliesOfAppendLast(a, before, last, replies);
    } else {
      assert a + b == a;
    }
  }

  lemma KnownKeyChars(key: string)
    requires KnownKey(key)
    ensures '&' !in key && '=' !in key && '?' !in key
  {
  }

  lemma SinglePiece(command: string)
    requires command != [] && '&' !in command
    ensures Segments(command) == [command]
  {
    assert PieceEnd(command, 0) == |command|;
    assert SegmentsFrom(command, |command| + 1) == [];
    assert command[0..|command|] == command;
  }

  lemma OnePair(pair: string, replies: seq<string>)
    ensures EventsOf([pair]) == PairEvents(pair)
    ensures RepliesOf([pair], replies) == PairReply(pair, ReplyAt(replies, 0))
  {
    assert [pair][..0] == [];
  }

  lemma SetPairEvents(key: string, value: string)
    requires KnownKey(key)
    ensures PairEvents(key + "=" + value) == [SetParam(Register(key), Decimal(ToInt(value)))]
  {
    KnownKeyChars(key);
    ParseSetOf(key, value);
  }

  lemma QueryPairReply(key: string, resp: string)
    requires KnownKey(key)
    ensures PairReply(key + "?", resp) == key + "=" + ParameterValue(Received(resp)) + "\n"
  {
    KnownKeyChars(key);
    ParseQueryOf(key);
  }

  lemma NoAmpIn(a: string, sep: string, b: string)
    requires '&' !in a && '&' !in sep && '&' !in b
    ensures '&' !in a + sep + b
  {
    assert forall k :: 0 <= k < |a + sep + b| ==> (a + sep + b)[k] in a || (a + sep + b)[k] in sep || (a + sep + b)[k] in b by {
      forall k | 0 <= k < |a + sep + b|
        ensures (a + sep + b)[k] in a || (a + sep + b)[k] in sep || (a + sep + b)[k] in b
      {
        if k < |a| {
          assert (a + sep + b)[k] == a[k];
        } else if k < |a| + |sep| {
          assert (a + sep + b)[k] == sep[k - |a|];
        } else {
          assert (a + sep + b)[k] == b[k - |a| - |sep|];
        }
      }
    }
  }

  /** A dashed command's reply and exchanges are those of its pieces. */
  lemma DashedCommand(command: string, inner: string, replies: seq<string>)
    requires command == "-" + inner + "-"
    ensures CommandReply(command, replies) == "\n" + RepliesOf(Segments(inner), replies)
    ensures CommandEvents(command) == EventsOf(Segments(inner))
  {
    InnerExample(command, inner);
  }

  lemma TwoPiecesOf(first: string, second: string)
    requires '&' !in first && '&' !in second && second != []
    ensures Segments(first + "&" + second) == [first, second]
  {
    var command := first + "&" + second;
    forall k | 0 <= k < |command| && k != |first|
      ensures command[k] != '&'
    {
      if k < |first| {
        assert command[k] == first[k];
      } else {
        assert command[k] == second[k - |first| - 1];
      }
    }
    TwoPieces(command, |first|);
    assert command[..|first|] == first && command[|first| + 1..] == second;
  }

  /** A set of a known key sends the value as toInt reads it and String(int) prints it. */
  lemma SetEvents(key: string, value: string)
    requires KnownKey(key) && '&' !in value
    ensures CommandEvents("-" + key + "=" + value + "-") == [SetParam(Register(key), Decimal(ToInt(value)))]
  {
    KnownKeyChars(key);
    var inner := key + "=" + value;
    DashedCommand("-" + key + "=" + value + "-", inner, []);
    NoAmpIn(key, "=", value);
    SinglePiece(inner);
    OnePair(inner, []);
    SetPairEvents(key, value);
  }

  /** A value that is not a number sets the register to 0. */
  lemma SetNotANumber(key: string, value: string)
    requires KnownKey(key) && '&' !in value
    requires value != [] && !IsSpace(value[0]) && !IsDigit(value[0]) && value[0] != '-' && value[0] != '+'
    ensures CommandEvents("-" + key + "=" + value + "-") == [SetParam(Register(key), "0")]
  {
    SetEvents(key, value);
    ToIntNotANumber(value);
  }

  /** Two pieces: the second reads the reply after the first piece's reads. */
  lemma TwoPairs(first: string, second: string, replies: seq<string>)
    requires '&' !in first && '&' !in second && second != []
    ensures EventsOf(Segments(first + "&" + second)) == PairEvents(first) + PairEvents(second)
    ensures RepliesOf(Segments(first + "&" + second), replies) ==
      PairReply(first, ReplyAt(replies, 0)) + PairReply(second, ReplyAt(replies, |PairEvents(first)|))
  {
    TwoPiecesOf(first, second);
    OnePair(first, replies);
    PairsSnoc([first], second, replies);
    assert [first] + [second] == [first, second];
  }

  /** The exchanges and reply line of a known key's query. */
  lemma KnownQuery(key: string, resp: string)
    requires KnownKey(key)
    ensures QueryEvent(key) == [QueryParam(Register(key))]
    ensures QueryLine(key, resp) == key + "=" + ParameterValue(Received(resp)) + "\n"
  {
  }

  /** The pieces of a set and then a query of the same key: the query reads the reply
      after the set's reads. */
  lemma SetThenQueryPairs(key: string, v: string, replies: seq<string>)
    requires '&' !in key && '=' !in key && '?' !in key && '&' !in v
    ensures EventsOf(Segments((key + "=" + v) + "&" + (key + "?"))) == SetEvent(key, v) + QueryEvent(key)
    ensures RepliesOf(Segments((key + "=" + v) + "&" + (key + "?")), replies) ==
      QueryLine(key, ReplyAt(replies, |SetEvent(key, v)|))
  {
    var assign, query := key + "=" + v, key + "?";
    assert '&' !in assign && '&' !in query by {
      NoAmpIn(key, "=", v);
      NoAmpIn(key, "?", "");
      assert key + "?" + "" == query;
    }
    TwoPairs(assign, query, replies);
    ParseSetOf(key, v);
    ParseQueryOf(key);
    var line := QueryLine(key, ReplyAt(replies, |SetEvent(key, v)|));
    assert "" + line == line;
  }

  /** A set and then a query of the same known key: the set's read-back takes the first
      reply, so the query reads again and is answered from the second. */
  lemma SetThenQueryReadsAgain(key: string, v: string, replies: seq<string>)
    requires KnownKey(key) && '&' !in v
    ensures CommandEvents("-" + ((key + "=" + v) + "&" + (key + "?")) + "-") ==
      [SetParam(Register(key), Decimal(ToInt(v))), QueryParam(Register(key))]
    ensures CommandReply("-" + ((key + "=" + v) + "&" + (key + "?")) + "-", replies) ==
      "\n" + (key + "=" + ParameterValue(Received(ReplyAt(replies, 1))) + "\n")
  {
    var inner := (key + "=" + v) + "&" + (key + "?");
    DashedCommand("-" + inner + "-", inner, replies);
    KnownKeyChars(key);
    SetThenQueryPairs(key, v, replies);
    KnownQuery(key, ReplyAt(replies, 1));
  }

  /** The pieces of two queries of the same key: the second reads the reply after the
      first one's reads. */
  lemma QueryTwicePairs(key: string, replies: seq<string>)
    requires '&' !in key && '=' !in key && '?' !in key
    ensures EventsOf(Segments((key + "?") + "&" + (key + "?"))) == QueryEvent(key) + QueryEvent(key)
    ensures RepliesOf(Segments((key + "?") + "&" + (key + "?")), replies) ==
      QueryLine(key, ReplyAt(replies, 0)) + QueryLine(key, ReplyAt(replies, |QueryEvent(key)|))
  {
    var query := key + "?";
    assert '&' !in query by {
      NoAmpIn(key, "?", "");
      assert key + "?" + "" == query;
    }
    TwoPairs(query, query, replies);
    ParseQueryOf(key);
  }

  /** Two queries of the same known key read twice, each from its own reply. */
  lemma QueryTwiceReadsTwice(key: string, replies: seq<string>)
    requires KnownKey(key)
    ensures CommandEvents("-" + ((key + "?") + "&" + (key + "?")) + "-") == [QueryParam(Register(key)), QueryParam(Register(key))]
    ensures CommandReply("-" + ((key + "?") + "&" + (key + "?")) + "-", replies) ==
      "\n" + (key + "=" + ParameterValue(Received(ReplyAt(replies, 0))) + "\n")
            + (key + "=" + ParameterValue(Received(ReplyAt(replies, 1))) + "\n")
  {
    var inner := (key + "?") + "&" + (key + "?");
    DashedCommand("-" + inner + "-", inner, replies);
    KnownKeyChars(key);
    QueryTwicePairs(key, replies);
    KnownQuery(key, ReplyAt(replies, 0));
    KnownQuery(key, ReplyAt(replies, 1));
    ConcatAssoc("\n", QueryLine(key, ReplyAt(replies, 0)), QueryLine(key, ReplyAt(replies, 1)));
  }
}
