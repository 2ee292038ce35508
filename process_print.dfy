/** The two number printers of process.c: serial_put_int and the entry
    address column of proc_list. The characters they send to the serial
    port are returned as a string. */
module ProcessPrint {
  import opened Machine
  import opened Numerals
  import Kernel

  /** serial_put_int: "0" for zero, the decimal digits for a positive value,
      and nothing at all for a negative one (the digit loop runs only while
      num > 0). */
  method PutInt(num: int) returns (out: string)
    requires IsI32(num)
    ensures num == 0 ==> out == "0"
    ensures num < 0 ==> out == []
    ensures num > 0 ==> out == Digits(num) && DecimalValue(out) == num
  {
    var buf := new char[12];
    if num == 0 {
      return "0";
    }
    var i := 0;
    if num > 0 {
      RevDigitsReversed(num);
      DecimalLength(num);
      i := Kernel.WriteRevDigits(buf, num);
    }
    ghost var n := i;
    out := [];
    while i > 0
      invariant 0 <= i <= n && |out| == n - i
      invariant forall p | 0 <= p < |out| :: out[p] == buf[n - 1 - p]
    {
      i := i - 1;
      out := out + [buf[i]];
    }
    assert out == Reverse(buf[..n]);
    if num > 0 {
      DecimalRoundTrip(num);
    }
  }

  /** The hex loop of proc_list: digit j of the address, `(addr >> (j * 4)) & 0xF`,
      goes to hex_str[7 - j], then a NUL. */
  method EntryHex(addr: nat) returns (hex: array<char>)
    requires addr < WORD_MOD
    ensures hex.Length == 9 && hex[..8] == Hex(addr, 8) && hex[8] == '\0'
    ensures HexValue(hex[..8]) == addr
  {
    hex := new char[9];
    for j := 8 downto 0
      invariant forall p | 0 <= p < 8 - j :: hex[p] == Hex(addr, 8)[p]
    {
      HexAt(addr, 8, j);
      var digit := addr / Pow16(j) % 16;
      hex[7 - j] := HexDigit(digit);
    }
    hex[8] := '\0';
    Hex8RoundTrip(addr);
  }
}
