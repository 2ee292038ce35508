/** The shell of kernel.c: int_to_string, the line editor of null_process
    and its choice of command. The keys serial_getc delivers are a
    parameter; the echo and the command output are left out. */
module Kernel {
  import opened Machine
  import opened Numerals

  /** MAX_INPUT: the size of the shell's line buffer, NUL included. */
  const MAX_INPUT: nat := 128

  // ----- int_to_string -----

  /** The digit loop of int_to_string and serial_put_int: `buf[i++] = num % 10 + '0'`
      until num reaches 0, which writes the digits least significant first. */
  method WriteRevDigits(buf: array<char>, n: nat) returns (i: nat)
    requires |RevDigits(n)| <= buf.Length
    modifies buf
    ensures i == |RevDigits(n)| && buf[..i] == RevDigits(n)
  {
    var v := n;
    i := 0;
    while v != 0
      invariant 0 <= v <= n && i + |RevDigits(v)| == |RevDigits(n)|
      invariant buf[..i] + RevDigits(v) == RevDigits(n)
    {
      assert RevDigits(v) == [DigitChar(v % 10)] + RevDigits(v / 10);
      buf[i] := DigitChar(v % 10);
      i := i + 1;
      v := v / 10;
    }
  }

  /** The swap loop of int_to_string: reverse a[0..n) in place. */
  method ReverseInPlace(a: array<char>, n: nat)
    requires n <= a.Length
    modifies a
    ensures a[..n] == Reverse(old(a[..n])) && a[n..] == old(a[n..])
  {
    var j, k := 0, n - 1;
    while j < k
      invariant 0 <= j && k == n - 1 - j && j <= k + 1
      invariant forall p | 0 <= p < j :: a[p] == old(a[n - 1 - p]) && a[n - 1 - p] == old(a[p])
      invariant forall p | j <= p <= k :: a[p] == old(a[p])
      invariant a[n..] == old(a[n..])
    {
      a[j], a[k] := a[k], a[j];
      j, k := j + 1, k - 1;
    }
  }

  /** The part of int_to_string before its swap loop: the digits of |value|
      least significant first, then '-' for a negative value. */
  method WriteRevDecimal(value: int, str: array<char>) returns (i: nat)
    requires IsI32(value) && value != INT_MIN && value != 0 && str.Length >= 12
    modifies str
    ensures i == |Decimal(value)| && i < str.Length && Reverse(str[..i]) == Decimal(value)
  {
    DecimalLength(value);
    var isNegative := false;
    var v := value;
    if v < 0 {
      isNegative := true;
      v := -v;
    }
    RevDigitsReversed(v);
    i := WriteRevDigits(str, v);
    if isNegative {
      str[i] := '-';
      assert str[..i + 1] == RevDigits(v) + "-";
      i := i + 1;
    }
    RevDecimal(value);
  }

  /** int_to_string: the decimal spelling of value followed by NUL, built as
      reversed digits plus an optional '-', then reversed in place. INT_MIN
      is excluded: `-value` overflows there. Any 12-byte buffer holds the result. */
  method IntToString(value: int, str: array<char>)
    requires IsI32(value) && value != INT_MIN && str.Length >= 12
    modifies str
    ensures |Decimal(value)| <= 11
    ensures str[..|Decimal(value)|] == Decimal(value) && str[|Decimal(value)|] == '\0'
  {
    DecimalLength(value);
    if value == 0 {
      str[0] := '0';
      str[1] := '\0';
      return;
    }
    var i := WriteRevDecimal(value, str);
    str[i] := '\0';
    ReverseInPlace(str, i);
    assert str[i] == str[i..][0];
  }

  // ----- The line editor -----

  predicate Printable(c: char)
  {
    32 <= c as int < 127
  }

  predicate IsEnter(c: char)
  {
    c == '\r' || c == '\n'
  }

  /** Backspace or DEL. */
  predicate IsErase(c: char)
  {
    c as int == 8 || c as int == 0x7F
  }

  /** One key applied to the characters typed so far: an erase key drops the
      last character if there is one; a printable key is appended while the
      line has room for it and the NUL; everything else is ignored. */
  function EditKey(line: string, c: char): string
  {
    if IsErase(c) && |line| > 0 then line[..|line| - 1]
    else if Printable(c) && |line| < MAX_INPUT - 1 then line + [c]
    else line
  }

  /** The line the keys leave in input[0..pos). */
  function Edited(keys: string): string
  {
    if keys == [] then [] else EditKey(Edited(keys[..|keys| - 1]), keys[|keys| - 1])
  }

  /** The line always fits the buffer and holds only printable characters. */
  lemma {:induction false} EditedBounded(keys: string)
    ensures |Edited(keys)| <= MAX_INPUT - 1
    ensures forall i | 0 <= i < |Edited(keys)| :: Printable(Edited(keys)[i])
  {
    if keys != [] {
      EditedBounded(keys[..|keys| - 1]);
    }
  }

  /** Typing a printable character and erasing it again leaves the line as it was. */
  lemma TypeThenErase(keys: string, c: char)
    requires Printable(c) && |Edited(keys)| < MAX_INPUT - 1
    ensures Edited(keys + [c, 8 as char]) == Edited(keys)
  {
    var ks := keys + [c, 8 as char];
    assert ks[..|ks| - 1] == keys + [c];
    assert (keys + [c])[..|keys|] == keys;
  }

  /** Erasing on an empty line does nothing. */
  lemma EraseOnEmpty(keys: string, c: char)
    requires IsErase(c) && Edited(keys) == []
    ensures Edited(keys + [c]) == []
  {
    assert (keys + [c])[..|keys|] == keys;
    assert Edited(keys + [c]) == EditKey(Edited(keys), c);
    assert !Printable(c);
  }

  /** On a full line (127 characters) only an erase key changes anything. */
  lemma FullLineIgnores(keys: string, c: char)
    requires |Edited(keys)| == MAX_INPUT - 1 && !IsErase(c)
    ensures Edited(keys + [c]) == Edited(keys)
  {
    assert (keys + [c])[..|keys|] == keys;
  }

  /** The index of the first CR or LF, or |keys| when there is none. */
  function LineEnd(keys: string): (k: nat)
    ensures k <= |keys|
    ensures k < |keys| ==> IsEnter(keys[k])
    ensures forall j | 0 <= j < k :: !IsEnter(keys[j])
  {
    if keys == [] then 0
    else if IsEnter(keys[0]) then 0
    else 1 + LineEnd(keys[1..])
  }

  /** The read loop of null_process: consume keys up to the first CR or LF,
      editing input[0..pos), and on CR or LF write NUL at pos. `used` is the
      number of keys before the line end; when the keys run out first, the
      shell is still waiting and no NUL has been written. */
  method ReadLine(input: array<char>, keys: string) returns (pos: nat, used: nat)
    requires input.Length == MAX_INPUT
    modifies input
    ensures used == LineEnd(keys)
    ensures pos < MAX_INPUT && pos == |Edited(keys[..used])|
    ensures input[..pos] == Edited(keys[..used])
    ensures used < |keys| ==> input[pos] == '\0'
  {
    pos, used := 0, 0;
    while used < |keys|
      invariant used <= |keys| && forall j | 0 <= j < used :: !IsEnter(keys[j])
      invariant pos < MAX_INPUT && pos == |Edited(keys[..used])|
      invariant input[..pos] == Edited(keys[..used])
    {
      var c := keys[used];
      if IsEnter(c) {
        input[pos] := '\0';
        return;
      } else if IsErase(c) && pos > 0 {
        pos := pos - 1;
      } else if Printable(c) && pos < MAX_INPUT - 1 {
        input[pos] := c;
        pos := pos + 1;
      }
      assert keys[..used + 1][..used] == keys[..used];
      EditedBounded(keys[..used + 1]);
      used := used + 1;
    }
  }

  // ----- Command choice -----

  datatype Command = Help | New | Psa | Unknown | NoCommand

  /** The characters of buf before its first NUL: what strcmp compares. */
  function CString(buf: seq<char>): (s: string)
    ensures |s| <= |buf| && s == buf[..|s|]
    ensures forall i | 0 <= i < |s| :: s[i] != '\0'
    ensures |s| < |buf| ==> buf[|s|] == '\0'
  {
    if buf == [] || buf[0] == '\0' then [] else [buf[0]] + CString(buf[1..])
  }

  /** The if-chain after the read loop: strcmp against "help", "new" and "psa", then `pos > 0`. */
  function Classify(buf: seq<char>, pos: nat): Command
  {
    var s := CString(buf);
    if s == "help" then Help
    else if s == "new" then New
    else if s == "psa" then Psa
    else if pos > 0 then Unknown
    else NoCommand
  }

  /** A NUL-terminated buffer reads as exactly its line. */
  lemma {:induction false} CStringOfLine(buf: seq<char>, pos: nat)
    requires pos < |buf| && buf[pos] == '\0' && forall i | 0 <= i < pos :: buf[i] != '\0'
    ensures CString(buf) == buf[..pos]
  {
    if pos > 0 {
      CStringOfLine(buf[1..], pos - 1);
    }
  }

  /** The command of a read line is an exact match on the whole line; any
      other non-empty line is unknown and an empty line does nothing. */
  lemma ClassifyLine(buf: seq<char>, pos: nat)
    requires pos < |buf| && buf[pos] == '\0' && forall i | 0 <= i < pos :: Printable(buf[i])
    ensures var line := buf[..pos];
      (Classify(buf, pos) == Help <==> line == "help")
      && (Classify(buf, pos) == New <==> line == "new")
      && (Classify(buf, pos) == Psa <==> line == "psa")
      && (Classify(buf, pos) == NoCommand <==> line == [])
      && (Classify(buf, pos) == Unknown <==> line != [] && line != "help" && line != "new" && line != "psa")
  {
    CStringOfLine(buf, pos);
  }

  /** What the shell does with the keys of one line depends only on the
      edited line: whatever else the buffer holds past the NUL, the command
      is that of the line alone. */
  lemma CommandOfKeys(input: seq<char>, keys: string, pos: nat)
    requires |input| == MAX_INPUT && pos < MAX_INPUT
    requires input[..pos] == Edited(keys) && input[pos] == '\0'
    ensures Classify(input, pos) == Classify(Edited(keys) + ['\0'], |Edited(keys)|)
    ensures Classify(input, pos) == Help <==> Edited(keys) == "help"
    ensures Classify(input, pos) == NoCommand <==> Edited(keys) == []
  {
    var line := Edited(keys);
    EditedBounded(keys);
    assert forall i | 0 <= i < pos :: input[i] == line[i];
    ClassifyLine(input, pos);
    var buf := line + ['\0'];
    assert buf[..|line|] == line;
    ClassifyLine(buf, |line|);
  }
}
