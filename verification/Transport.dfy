/** The ICMP echo request and its Internet checksum (section 1 of RFC 1071). */
module Transport {
  type Byte = b: int | 0 <= b < 256

  const WORD: nat := 0x1_0000

  /** Big-endian 16-bit words; an odd last byte is padded with zero. */
  function WordSum(bytes: seq<Byte>): nat {
    if bytes == [] then 0
    else if |bytes| == 1 then 256 * bytes[0]
    else 256 * bytes[0] + bytes[1] + WordSum(bytes[2..])
  }

  /** Two folds of the carries, then the complement of the low 16 bits. */
  function Complement(total: nat): nat {
    var once := total / WORD + total % WORD;
    var twice := once + once / WORD;
    WORD - 1 - twice % WORD
  }

  method Checksum(payload: seq<Byte>) returns (r: nat)
    ensures r == Complement(WordSum(payload))
  {
    hide WordSum;
    var padded := payload;
    if |payload| % 2 != 0 {
      padded := payload + [0];
      PaddingKeepsSum(payload);
    }
    var total: nat := 0;
    var index := 0;
    while index < |padded|
      invariant index <= |padded| && index % 2 == 0 && |padded| % 2 == 0
      invariant total + WordSum(padded[index..]) == WordSum(padded)
    {
      NextWord(padded, index);
      total := total + 256 * (padded[index] as int) + padded[index + 1] as int;
      index := index + 2;
    }
    NoWords(padded[|padded|..]);
    total := total / WORD + total % WORD;
    total := total + total / WORD;
    r := WORD - 1 - total % WORD;
  }

  lemma NextWord(bytes: seq<Byte>, index: nat)
    requires index + 1 < |bytes|
    ensures WordSum(bytes[index..]) == 256 * bytes[index] + bytes[index + 1] + WordSum(bytes[index + 2..])
  {
    assert bytes[index..][2..] == bytes[index + 2..];
  }

  lemma NoWords(bytes: seq<Byte>)
    requires bytes == []
    ensures WordSum(bytes) == 0
  {
  }

  lemma {:induction false} PaddingKeepsSum(bytes: seq<Byte>)
    requires |bytes| % 2 == 1
    ensures WordSum(bytes + [0]) == WordSum(bytes)
  {
    if |bytes| > 1 {
      PaddingKeepsSum(bytes[2..]);
      assert (bytes + [0])[2..] == bytes[2..] + [0];
    }
  }

  /** Two folds are enough below 2^32: what is complemented is then the one's complement
      sum, congruent to the total modulo 2^16 - 1 and zero only when the total is. */
  lemma TwoFoldsSuffice(total: nat) returns (q: nat)
    requires total < WORD * WORD
    ensures var sum := WORD - 1 - Complement(total);
      0 <= sum < WORD && total == sum + (WORD - 1) * q && (sum == 0 <==> total == 0)
  {
    var high, low := total / WORD, total % WORD;
    assert total == high * WORD + low && high < WORD;
    var once := high + low;
    q := if once < WORD then high else high + 1;
    assert once / WORD == if once < WORD then 0 else 1;
  }

  /** A receiver's check passes exactly when the words add up to a positive multiple of
      2^16 - 1. */
  lemma CheckPasses(total: nat)
    requires total < WORD * WORD
    ensures Complement(total) == 0 <==> total > 0 && total % (WORD - 1) == 0
  {
    var q := TwoFoldsSuffice(total);
    var sum := WORD - 1 - Complement(total);
    if sum == WORD - 1 {
      assert total == (WORD - 1) * (q + 1);
    } else if total > 0 {
      assert total == sum + (WORD - 1) * q && 0 < sum < WORD - 1;
    }
  }

  /** The longest message for which the folds are known to suffice. */
  const MAX_MESSAGE: nat := 2 * 0x1_0001

  lemma {:induction false} SumBound(bytes: seq<Byte>)
    ensures WordSum(bytes) <= (WORD - 1) * ((|bytes| + 1) / 2)
    decreases |bytes|
  {
    if |bytes| > 1 {
      SumBound(bytes[2..]);
      assert (|bytes| + 1) / 2 == (|bytes[2..]| + 1) / 2 + 1;
    }
  }

  function Pack(word: nat): seq<Byte>
    requires word < WORD
  {
    [word / 256, word % 256]
  }

  /** Type, code, checksum, identifier, sequence. */
  function Header(checksum: nat, identifier: int, sequence: int): seq<Byte>
    requires checksum < WORD
  {
    [8, 0] + Pack(checksum) + Pack(identifier % WORD) + Pack(sequence % WORD)
  }

  /** An echo request around any payload: the checksum is taken with its own field zero,
      then written into it. */
  function EchoRequest(identifier: int, sequence: int, payload: seq<Byte>): seq<Byte> {
    var checksum := Complement(WordSum(Header(0, identifier, sequence) + payload));
    Header(checksum, identifier, sequence) + payload
  }

  const ICMP_MAGIC: seq<Byte> :=
    [110, 101, 116, 115, 101, 99, 111, 112, 115, 45, 100, 105, 115, 99, 111, 118, 101, 114, 121]

  method BuildEchoRequest(identifier: int, sequence: int) returns (message: seq<Byte>)
    ensures message == EchoRequest(identifier, sequence, ICMP_MAGIC)
  {
    var header := Header(0, identifier, sequence);
    var checksum := Checksum(header + ICMP_MAGIC);
    message := Header(checksum, identifier, sequence) + ICMP_MAGIC;
  }

  lemma OneWord(word: nat, rest: seq<Byte>)
    requires word < WORD
    ensures WordSum(Pack(word) + rest) == word + WordSum(rest)
  {
    var bytes := Pack(word) + rest;
    assert bytes[2..] == rest && |bytes| >= 2;
    assert bytes[0] == word / 256 && bytes[1] == word % 256;
  }

  lemma HeaderSum(checksum: nat, identifier: int, sequence: int, payload: seq<Byte>)
    requires checksum < WORD
    ensures WordSum(Header(checksum, identifier, sequence) + payload) ==
      0x800 + checksum + identifier % WORD + sequence % WORD + WordSum(payload)
  {
    hide WordSum;
    var d := Pack(sequence % WORD) + payload;
    var c := Pack(identifier % WORD) + d;
    var b := Pack(checksum) + c;
    assert Pack(0x800) == [8, 0];
    assert Header(checksum, identifier, sequence) + payload == Pack(0x800) + b;
    OneWord(0x800, b);
    OneWord(checksum, c);
    OneWord(identifier % WORD, d);
    OneWord(sequence % WORD, payload);
  }

  /** For every identifier, sequence number and payload that fits, recomputing the
      checksum over the message as sent gives zero. */
  lemma EchoChecksOut(identifier: int, sequence: int, payload: seq<Byte>)
    requires |payload| + 8 <= MAX_MESSAGE
    ensures Complement(WordSum(EchoRequest(identifier, sequence, payload))) == 0
  {
    hide WordSum, Complement;
    var blank := Header(0, identifier, sequence) + payload;
    var total := WordSum(blank);
    SumBound(blank);
    HeaderSum(0, identifier, sequence, payload);
    assert total < WORD * WORD;
    var q := TwoFoldsSuffice(total);
    var checksum := Complement(total);
    HeaderSum(checksum, identifier, sequence, payload);
    assert total + checksum == (WORD - 1) * (q + 1);
    SumBound(EchoRequest(identifier, sequence, payload));
    CheckPasses(total + checksum);
    MultipleLeavesNothing(q + 1);
  }

  lemma MultipleLeavesNothing(k: nat)
    ensures ((WORD - 1) * k) % (WORD - 1) == 0
  {
  }

  lemma SameResidue(a: nat, b: nat)
    requires a % (WORD - 1) == 0
    ensures (b - a) % (WORD - 1) == 0 <==> b % (WORD - 1) == 0
  {
  }

  /** Against a message that checks out, another one checks out exactly when its words add
      up to something else by a multiple of 2^16 - 1, and to something at all. */
  lemma CorruptionShows(message: seq<Byte>, received: seq<Byte>)
    requires |message| <= MAX_MESSAGE && |received| <= MAX_MESSAGE && Complement(WordSum(message)) == 0
    ensures Complement(WordSum(received)) == 0 <==>
      WordSum(received) > 0 && (WordSum(received) - WordSum(message)) % (WORD - 1) == 0
  {
    hide WordSum, Complement;
    SumBound(message);
    SumBound(received);
    CheckPasses(WordSum(message));
    CheckPasses(WordSum(received));
    SameResidue(WordSum(message), WordSum(received));
  }

  lemma {:induction false} ByteMovesSum(bytes: seq<Byte>, i: nat, b: Byte)
    requires i < |bytes|
    ensures WordSum(bytes[i := b]) - WordSum(bytes) == (if i % 2 == 0 then 256 else 1) * (b - bytes[i])
  {
    if i >= 2 {
      ByteMovesSum(bytes[2..], i - 2, b);
      assert bytes[i := b][2..] == bytes[2..][i - 2 := b];
    } else if |bytes| > 1 {
      assert bytes[i := b][2..] == bytes[2..];
    }
  }

  /** A single wrong byte is always noticed. */
  lemma WrongByteShows(message: seq<Byte>, i: nat, b: Byte)
    requires |message| <= MAX_MESSAGE && Complement(WordSum(message)) == 0
    requires i < |message| && b != message[i]
    ensures Complement(WordSum(message[i := b])) != 0
  {
    hide WordSum, Complement;
    ByteMovesSum(message, i, b);
    CorruptionShows(message, message[i := b]);
  }

  function WordAt(message: seq<Byte>, i: nat): nat
    requires i + 1 < |message|
  {
    256 * (message[i] as int) + message[i + 1] as int
  }

  /** What a receiver reads in the message: an echo request of code 0, both numbers modulo
      2^16 in network order, and the payload, after a header of eight bytes. */
  lemma EchoFieldsRead(identifier: int, sequence: int, payload: seq<Byte>)
    ensures var message := EchoRequest(identifier, sequence, payload);
      && |message| == 8 + |payload| && message[8..] == payload
      && message[0] == 8 && message[1] == 0
      && WordAt(message, 4) == identifier % WORD && WordAt(message, 6) == sequence % WORD
  {
    hide WordSum, Complement;
  }

  /** The payload a reply is recognised by. */
  lemma MagicIsText()
    ensures |ICMP_MAGIC| == |"netsecops-discovery"|
    ensures forall i :: 0 <= i < |ICMP_MAGIC| ==> ICMP_MAGIC[i] == "netsecops-discovery"[i] as int
  {
  }
}
