/** Method arguments read off their bytes, without the encoders: where each field of AMQP
    0-9-1 stands and what it is (internal/amqp/decoder.go). */
module Arguments {
  import opened Wrappers
  import opened Bytes
  import opened Decoder

  /** The text of the short string at `offset`: as many chars as its first byte says. */
  function Word(p: seq<byte>, offset: nat): string
    requires HoldsShortStr(p, offset)
  {
    seq(p[offset], i requires 0 <= i < p[offset] => p[offset + 1 + i] as char)
  }

  /** Two texts stand behind the first two bytes. */
  predicate HoldsTwo(p: seq<byte>) {
    HoldsShortStr(p, 2) && HoldsShortStr(p, Behind(p, 2))
  }

  /** The flags behind the names, none set when the byte is missing. */
  function Bits(p: seq<byte>, offset: nat): int {
    if offset < |p| then p[offset] else 0
  }

  lemma WordIsRead(p: seq<byte>, offset: nat)
    ensures ParseShortStr(p, offset).Got? <==> HoldsShortStr(p, offset)
    ensures HoldsShortStr(p, offset) ==> ParseShortStr(p, offset) == Got(Word(p, offset), Behind(p, offset))
  {
    if HoldsShortStr(p, offset) {
      assert Text(p[offset + 1..offset + 1 + p[offset]]) == Word(p, offset);
    }
  }

  /** A text written behind its length is the word read there, whatever stands around. */
  lemma EncodedWord(p: seq<byte>, before: seq<byte>, text: seq<byte>, trailing: seq<byte>)
    requires |text| < 256 && p == before + ([|text|] + (text + trailing))
    ensures HoldsShortStr(p, |before|)
    ensures Behind(p, |before|) == |before| + 1 + |text|
    ensures Word(p, |before|) == Text(text)
  {
    assert p[|before|] == |text|;
    assert forall i :: 0 <= i < |text| ==> p[|before| + 1 + i] == text[i];
  }

  /** Main result: arguments written as AMQP 0-9-1 lays them out, a number of two bytes and
      up to three texts with their lengths, are read as those, whatever follows. */
  lemma EncodedArguments(hi: byte, lo: byte, a: seq<byte>, b: seq<byte>, c: seq<byte>, trailing: seq<byte>)
    requires |a| < 256 && |b| < 256 && |c| < 256
    ensures var p := [hi, lo] + ([|a|] + (a + ([|b|] + (b + ([|c|] + (c + trailing))))));
            var o := 3 + |a|;
            var o' := o + 1 + |b|;
            && p[0] == hi && p[1] == lo
            && HoldsTwo(p) && Word(p, 2) == Text(a) && Behind(p, 2) == o
            && Word(p, o) == Text(b) && Behind(p, o) == o'
            && HoldsShortStr(p, o') && Word(p, o') == Text(c)
    ensures var p := [|a|] + (a + trailing); HoldsShortStr(p, 0) && Word(p, 0) == Text(a)
  {
    hide Word, HoldsShortStr, Behind, Text;
    var z := [|c|] + (c + trailing);
    var y := [|b|] + (b + z);
    var x := [|a|] + (a + y);
    var p, u, v := [hi, lo] + x, [hi, lo] + ([|a|] + a), [hi, lo] + ([|a|] + a) + ([|b|] + b);
    EncodedWord(p, [hi, lo], a, y);
    assert p == u + y;
    EncodedWord(p, u, b, z);
    assert p == v + z;
    EncodedWord(p, v, c, trailing);
    var w := [|a|] + (a + trailing);
    assert w == [] + w;
    EncodedWord(w, [], a, trailing);
  }

  lemma OneNameIsRead(p: seq<byte>)
    ensures ParseOneName(p) == if HoldsShortStr(p, 2) then Got(Word(p, 2), Behind(p, 2)) else Truncated
  {
    WordIsRead(p, 2);
    hide ParseShortStr, Word;
  }

  lemma TwoNamesAreRead(p: seq<byte>)
    ensures ParseTwoNames(p) ==
            if HoldsTwo(p) then Got((Word(p, 2), Word(p, Behind(p, 2))), Behind(p, Behind(p, 2))) else Truncated
  {
    WordIsRead(p, 2);
    if HoldsShortStr(p, 2) {
      WordIsRead(p, Behind(p, 2));
    }
    hide ParseShortStr, Word, U16;
  }

  lemma FlagIsRead(p: seq<byte>, offset: nat)
    ensures Flag(p, offset, 1) <==> Bits(p, offset) % 2 == 1
    ensures Flag(p, offset, 2) <==> Bits(p, offset) / 2 % 2 == 1
    ensures Flag(p, offset, 4) <==> Bits(p, offset) / 4 % 2 == 1
    ensures Flag(p, offset, 8) <==> Bits(p, offset) / 8 % 2 == 1
  {
  }

  /** Main result: a close, from any bytes; it may end behind its text. */
  lemma ClosesOnWire(p: seq<byte>)
    ensures ParseClose(p) ==
            if !HoldsShortStr(p, 2) then None
            else
              var o := Behind(p, 2);
              if o + 4 <= |p| then
                Some(Close(TwoBytes(p[0], p[1]), Word(p, 2), TwoBytes(p[o], p[o + 1]), TwoBytes(p[o + 2], p[o + 3])))
              else Some(Close(TwoBytes(p[0], p[1]), Word(p, 2), 0, 0))
  {
    WordIsRead(p, 2);
    BigEndian(p, 0);
    if HoldsShortStr(p, 2) {
      BigEndian(p, Behind(p, 2));
      BigEndian(p, Behind(p, 2) + 2);
    }
    hide ParseShortStr, Word, U16;
  }

  /** Main result: a returned message, from any bytes. */
  lemma ReturnsOnWire(p: seq<byte>)
    ensures ParseBasicReturn(p) ==
            if !HoldsTwo(p) || !HoldsShortStr(p, Behind(p, Behind(p, 2))) then None
            else
              var o := Behind(p, 2);
              Some(BasicReturn(TwoBytes(p[0], p[1]), Word(p, 2), Word(p, o), Word(p, Behind(p, o))))
  {
    WordIsRead(p, 2);
    BigEndian(p, 0);
    if HoldsShortStr(p, 2) {
      WordIsRead(p, Behind(p, 2));
      if HoldsTwo(p) {
        WordIsRead(p, Behind(p, Behind(p, 2)));
      }
    }
    hide ParseShortStr, Word, U16, TwoBytes;
  }

  predicate BitSet(bits: int, weight: int)
    requires weight > 0
  {
    bits / weight % 2 == 1
  }

  /** Main result: for any bytes, which named methods they hold. */
  lemma NamesOnWire(p: seq<byte>)
    ensures if HoldsShortStr(p, 2) then
              var name, bits := Word(p, 2), Bits(p, Behind(p, 2));
              && ParseQueueDeclare(p) ==
                 Some(QueueDeclare(name, BitSet(bits, 1), BitSet(bits, 2), BitSet(bits, 4), BitSet(bits, 8)))
              && ParseQueueDelete(p) == Some(QueueDelete(name, BitSet(bits, 1), BitSet(bits, 2)))
              && ParseQueuePurge(p) == Some(name)
              && ParseExchangeDelete(p) == Some(ExchangeDelete(name, BitSet(bits, 1)))
            else
              && ParseQueueDeclare(p).None? && ParseQueueDelete(p).None?
              && ParseQueuePurge(p).None? && ParseExchangeDelete(p).None?
    ensures if HoldsTwo(p) then
              var a, b, bits := Word(p, 2), Word(p, Behind(p, 2)), Bits(p, Behind(p, Behind(p, 2)));
              && ParseBasicPublish(p) == Some(BasicPublish(a, b, BitSet(bits, 1), BitSet(bits, 2)))
              && ParseBasicConsume(p) == Some(BasicConsume(a, b, BitSet(bits, 2), BitSet(bits, 4)))
              && ParseExchangeDeclare(p) ==
                 Some(ExchangeDeclare(a, b, BitSet(bits, 1), BitSet(bits, 2), BitSet(bits, 4)))
            else ParseBasicPublish(p).None? && ParseBasicConsume(p).None? && ParseExchangeDeclare(p).None?
  {
    OneNameIsRead(p);
    TwoNamesAreRead(p);
    if HoldsShortStr(p, 2) {
      FlagIsRead(p, Behind(p, 2));
      if HoldsTwo(p) {
        FlagIsRead(p, Behind(p, Behind(p, 2)));
      }
    }
    hide ParseOneName, ParseTwoNames, Word, Flag, Bits;
  }

  /** Main result: the same for numbers, a leading text and a flow. */
  lemma NumbersOnWire(p: seq<byte>)
    ensures ParseConnectionTune(p) ==
            if |p| < 8 then None
            else Some(ConnectionTune(TwoBytes(p[0], p[1]), FourBytes(p[2], p[3], p[4], p[5]), TwoBytes(p[6], p[7])))
    ensures if |p| < 8 then ParseBasicNack(p).None? && ParseBasicReject(p).None?
            else
              var tag := FourBytes(p[0], p[1], p[2], p[3]) * 4_294_967_296 + FourBytes(p[4], p[5], p[6], p[7]);
              && ParseBasicNack(p) == Some(BasicNack(tag, BitSet(Bits(p, 8), 1), BitSet(Bits(p, 8), 2)))
              && ParseBasicReject(p) == Some(BasicReject(tag, BitSet(Bits(p, 8), 1)))
    ensures ParseLeadingString(p) == if HoldsShortStr(p, 0) then Some(Word(p, 0)) else None
    ensures ParseChannelFlow(p) == if |p| == 0 then None else Some(p[0] != 0)
  {
    WordIsRead(p, 0);
    BigEndian(p, 0);
    BigEndian(p, 2);
    BigEndian(p, 6);
    FlagIsRead(p, 8);
    hide ParseShortStr, Word, U16, U32, U64, Flag, Bits;
  }
}
