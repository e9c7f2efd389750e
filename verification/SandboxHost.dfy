/** src/sandbox/host.rs: the WebAssembly guest's byte scanner and the host side of one call. */
module SandboxHost {
  import opened Utf8
  import opened SandboxAbi
  import OoCounter

  const PAGE_BYTES := 65_536
  const SUSPICIOUS_BYTES := 32_768
  const I32_MAX := 0x7FFF_FFFF

  datatype AnalyzerError =
    | AbiMismatch
    | Trap
    | ResourceExceeded
    | TimedOut
    | InvalidWire(value: I64)

  type I32 = n: int | -0x8000_0000 <= n <= 0x7FFF_FFFF

  // `i32.add`, wrapping around in two's complement.
  function AddI32(x: I32, y: I32): I32 {
    if x + y > I32_MAX then x + y - WORD
    else if x + y < -I32_MAX - 1 then x + y + WORD
    else x + y
  }

  predicate IsAsciiO(b: Byte) { b == 111 || b == 79 }

  // A three-byte character led by 227, twice: 227 129 138 is the hiragana letter, 227 130 170 the
  // katakana one.
  predicate IsPairOf(second: Byte, third: Byte, bytes: seq<Byte>) {
    && |bytes| >= 6
    && bytes[0] == 227 && bytes[1] == second && bytes[2] == third
    && bytes[3] == 227 && bytes[4] == second && bytes[5] == third
  }

  predicate StartsWithKanaPair(bytes: seq<Byte>) {
    IsPairOf(129, 138, bytes) || IsPairOf(130, 170, bytes)
  }

  // The number of bytes a hit at the start takes, 0 when there is none.
  function HitWidth(bytes: seq<Byte>): (width: nat)
    requires |bytes| >= 2
    ensures width <= |bytes| && (width == 0 || width == 2 || width == 6)
  {
    if IsAsciiO(bytes[0]) && IsAsciiO(bytes[1]) then 2
    else if StartsWithKanaPair(bytes) then 6
    else 0
  }

  /** The scan over the bytes that are left. */
  function ScanBytes(bytes: seq<Byte>): nat {
    if |bytes| < 2 then 0
    else if HitWidth(bytes) > 0 then 1 + ScanBytes(bytes[HitWidth(bytes)..])
    else ScanBytes(bytes[1..])
  }

  lemma {:induction false} ScanBytesBound(bytes: seq<Byte>)
    ensures ScanBytes(bytes) <= |bytes| / 2
    decreases |bytes|
  {
    if |bytes| >= 2 {
      ScanBytesBound(bytes[if HitWidth(bytes) > 0 then HitWidth(bytes) else 1..]);
    }
  }

  // A byte that cannot start a hit is stepped over.
  lemma ScanSkips(x: seq<Byte>, rest: seq<Byte>)
    requires forall k :: 0 <= k < |x| ==> !IsAsciiO(x[k]) && x[k] != 227
    ensures ScanBytes(x + rest) == ScanBytes(rest)
    decreases |x|
  {
    if x == [] {
      assert x + rest == rest;
    } else {
      assert (x + rest)[1..] == x[1..] + rest;
      ScanSkips(x[1..], rest);
      if |x + rest| < 2 {
        assert rest == [];
      }
    }
  }

  lemma PairEncodings()
    ensures EncodeChar(OoCounter.HIRAGANA_O) == [227, 129, 138]
    ensures EncodeChar(OoCounter.KATAKANA_O) == [227, 130, 170]
  {
  }

  lemma EncodePair(x: char)
    ensures Encode([x, x]) == EncodeChar(x) + EncodeChar(x)
  {
    assert [x, x][1..] == [x];
    assert [x][1..] == [];
    assert Encode([x]) == EncodeChar(x) + [];
  }

  // At the start of a character the six-byte tests recognise exactly a repeated character.
  lemma PairAtBoundary(x: char, second: Byte, third: Byte, text: string)
    requires EncodeChar(x) == [227, second, third]
    ensures IsPairOf(second, third, Encode(text)) <==> |text| >= 2 && text[0] == text[1] == x
  {
    EncodePair(x);
    PairIsPrefix(second, third, Encode(text));
    PrefixAtBoundary([x, x], text);
  }

  lemma PairIsPrefix(second: Byte, third: Byte, bytes: seq<Byte>)
    ensures IsPairOf(second, third, bytes) <==> [227, second, third] + [227, second, third] <= bytes
  {
    var pair: seq<Byte> := [227, second, third, 227, second, third];
    assert [227, second, third] + [227, second, third] == pair;
    if IsPairOf(second, third, bytes) {
      assert forall k :: 0 <= k < 6 ==> pair[k] == bytes[k];
    }
    if pair <= bytes {
      assert forall k :: 0 <= k < 6 ==> bytes[k] == pair[k];
    }
  }

  lemma EncodeSplit(text: string)
    requires |text| >= 2
    ensures Encode(text) == EncodeChar(text[0]) + (EncodeChar(text[1]) + Encode(text[2..]))
  {
    assert text[1..][1..] == text[2..];
  }

  lemma AsciiOAtBoundary(text: string)
    requires |text| >= 1
    ensures IsAsciiO(Encode(text)[0]) <==> OoCounter.IsAsciiO(text[0])
    ensures IsAsciiO(Encode(text)[0]) ==> EncodeChar(text[0]) == [Encode(text)[0]]
  {
  }

  /** Refinement: scanning the UTF-8 bytes counts exactly the character-level hits. */
  lemma {:induction false} ScanRefinesCharacters(text: string)
    ensures ScanBytes(Encode(text)) == OoCounter.OoCount(text)
    decreases |text|
  {
    if text == [] {
    } else {
      var bytes, first, rest := Encode(text), EncodeChar(text[0]), Encode(text[1..]);
      PairEncodings();
      AsciiOAtBoundary(text);
      PairAtBoundary(OoCounter.HIRAGANA_O, 129, 138, text);
      PairAtBoundary(OoCounter.KATAKANA_O, 130, 170, text);
      if |text| >= 2 && OoCounter.IsPair(text[0], text[1]) {
        EncodeSplit(text);
        AsciiOAtBoundary(text[1..]);
        var width := |first| + |EncodeChar(text[1])|;
        assert bytes[width..] == Encode(text[2..]);
        ScanRefinesCharacters(text[2..]);
      } else {
        ScanRefinesCharacters(text[1..]);
        if |text| >= 2 {
          AsciiOAtBoundary(text[1..]);
        }
        StepOverCharacter(text);
      }
    }
  }

  // No hit starts at the first character: the scan reaches the next one with the same count.
  lemma StepOverCharacter(text: string)
    requires text != []
    requires !(|text| >= 2 && OoCounter.IsPair(text[0], text[1]))
    ensures ScanBytes(Encode(text)) == ScanBytes(Encode(text[1..]))
  {
    var bytes, first, rest := Encode(text), EncodeChar(text[0]), Encode(text[1..]);
    if |bytes| >= 2 {
      NoHitAtBoundary(text);
      StepOverBytes(first, rest);
    } else {
      assert |rest| == 0;
    }
  }

  lemma StepOverBytes(first: seq<Byte>, rest: seq<Byte>)
    requires |first| >= 1 && |first + rest| >= 2
    requires forall k :: 1 <= k < |first| ==> IsContinuation(first[k])
    requires !(IsAsciiO((first + rest)[0]) && IsAsciiO((first + rest)[1]))
    requires !StartsWithKanaPair(first + rest)
    ensures ScanBytes(first + rest) == ScanBytes(rest)
  {
    assert (first + rest)[1..] == first[1..] + rest;
    ScanSkips(first[1..], rest);
  }

  lemma NoHitAtBoundary(text: string)
    requires text != [] && |Encode(text)| >= 2
    requires !(|text| >= 2 && OoCounter.IsPair(text[0], text[1]))
    ensures !(IsAsciiO(Encode(text)[0]) && IsAsciiO(Encode(text)[1]))
    ensures !StartsWithKanaPair(Encode(text))
  {
    PairEncodings();
    PairAtBoundary(OoCounter.HIRAGANA_O, 129, 138, text);
    PairAtBoundary(OoCounter.KATAKANA_O, 130, 170, text);
    AsciiOAtBoundary(text);
    if IsAsciiO(Encode(text)[0]) {
      assert Encode(text)[1] == Encode(text[1..])[0];
      if |text| >= 2 {
        AsciiOAtBoundary(text[1..]);
      }
    }
  }

  /** What one uninterrupted guest call proposes. Counts past `i32::MAX` wrap to a negative number
      and are reported as nothing found. */
  function GuestProposal(byteLength: nat, total: nat, specialHit: bool): Proposal {
    if byteLength > SUSPICIOUS_BYTES then SuspiciousInput
    else if specialHit then SpecialPhrase
    else if total == 0 || total > I32_MAX then Noop
    else if total == 1 then ReactOnce
    else SendStamped(if total > 255 then 255 else total)
  }

  // One of the two six-byte tests.
  method SixBytesMatch(memory: array<Byte>, at: I32, second: Byte, third: Byte) returns (hit: bool)
    requires 0 <= at && at + 6 <= memory.Length
    ensures forall end :: at + 6 <= end <= memory.Length ==> hit == IsPairOf(second, third, memory[at..end])
  {
    hit := memory[at] == 227 && memory[at + 1] == second && memory[at + 2] == third
           && memory[at + 3] == 227 && memory[at + 4] == second && memory[at + 5] == third;
  }

  // The three tests of one loop iteration; loads stay below `ptr + len`.
  method HitAt(memory: array<Byte>, ptr: I32, i: I32, len: I32) returns (width: I32)
    requires 0 <= ptr && 0 <= i && i + 1 < len && ptr + len <= memory.Length <= PAGE_BYTES
    ensures width == HitWidth(memory[ptr..ptr + len][i..])
  {
    var at, end := AddI32(ptr, i), AddI32(ptr, len);
    assert memory[ptr..ptr + len][i..] == memory[at..end];
    if IsAsciiO(memory[at]) && IsAsciiO(memory[at + 1]) {
      return 2;
    }
    if AddI32(i, 5) < len {
      var hit := SixBytesMatch(memory, at, 129, 138);
      if hit {
        return 6;
      }
    }
    if AddI32(i, 5) < len {
      var hit := SixBytesMatch(memory, at, 130, 170);
      if hit {
        return 6;
      }
    }
    return 0;
  }

  // The scan by position, as the loop performs it.
  ghost function ScanFrom(bytes: seq<Byte>, i: nat): nat
    requires i <= |bytes|
    decreases |bytes| - i
  {
    if i + 1 >= |bytes| then 0
    else
      var width := HitWidth(bytes[i..]);
      if width > 0 then 1 + ScanFrom(bytes, i + width) else ScanFrom(bytes, i + 1)
  }

  lemma {:induction false} ScanFromIsScanBytes(bytes: seq<Byte>, i: nat)
    requires i <= |bytes|
    ensures ScanFrom(bytes, i) == ScanBytes(bytes[i..])
    decreases |bytes| - i
  {
    if i + 1 < |bytes| {
      var step := if HitWidth(bytes[i..]) > 0 then HitWidth(bytes[i..]) else 1;
      assert bytes[i..][step..] == bytes[i + step..];
      ScanFromIsScanBytes(bytes, i + step);
    }
  }

  /** The scanning loop of the exported `analyze` function. */
  method ScanMemory(memory: array<Byte>, ptr: I32, len: I32) returns (count: I32)
    requires 0 <= ptr && 0 <= len <= SUSPICIOUS_BYTES && ptr + len <= memory.Length <= PAGE_BYTES
    ensures count == ScanBytes(memory[ptr..ptr + len])
  {
    ghost var bytes := memory[ptr..ptr + len];
    var i: I32 := 0;
    count := 0;
    while !(i >= AddI32(len, -1))
      invariant 0 <= count <= i <= len
      invariant count + ScanFrom(bytes, i) == ScanFrom(bytes, 0)
      decreases len - i
    {
      var width := HitAt(memory, ptr, i, len);
      if width > 0 {
        count := AddI32(count, 1);
        i := AddI32(i, width);
      } else {
        i := AddI32(i, 1);
      }
    }
    ScanFromIsScanBytes(bytes, 0);
    assert bytes[0..] == bytes;
  }

  /** The exported `analyze` function. */
  method Analyze(memory: array<Byte>, ptr: I32, len: I32, kanjiCount: I32, specialHit: I32) returns (wire: I64)
    requires 0 <= ptr && 0 <= len && ptr + len <= memory.Length <= PAGE_BYTES
    requires 0 <= kanjiCount
    ensures wire == EncodeWire(GuestProposal(len, ScanBytes(memory[ptr..ptr + len]) + kanjiCount, specialHit != 0))
  {
    if len > SUSPICIOUS_BYTES {
      return 17179869184;
    }
    var count := ScanMemory(memory, ptr, len);
    ScanBytesBound(memory[ptr..ptr + len]);
    count := AddI32(count, kanjiCount);
    if specialHit != 0 {
      return 12884901889;
    }
    if count <= 0 {
      return 0;
    }
    if count == 1 {
      return 4294967297;
    }
    if count > 255 {
      count := 255;
    }
    var aux: int := count;
    wire := 8589934592 + aux;
  }

  // The analyzer's configuration, and what the WebAssembly runtime itself may do to a call: fail
  // while setting up, or stop the guest (trap, fuel exhausted).
  datatype Sandbox = Sandbox(abiVersion: nat, memoryLimit: nat)
  datatype RuntimeFault = NoFault | SetupFault(error: AnalyzerError) | CallFault(error: AnalyzerError)

  const SANDBOX_ABI_VERSION := 1

  function CappedKanji(kanjiCount: nat): (r: nat)
    ensures r <= I32_MAX
  {
    if kanjiCount < I32_MAX then kanjiCount else I32_MAX
  }

  /** What an undisturbed call answers, in terms of the characters of the message. */
  function Answer(content: string, kanjiCount: nat, specialHit: bool): Proposal {
    GuestProposal(|Encode(content)|, OoCounter.OoCount(content) + CappedKanji(kanjiCount), specialHit)
  }

  /** `propose`: copies the message into the guest's single zeroed page, calls it and decodes the
      answer. An undisturbed call on a message that fits never fails. */
  method Propose(sandbox: Sandbox, content: string, kanjiCount: nat, specialHit: bool, fault: RuntimeFault)
    returns (r: Result<Proposal, AnalyzerError>)
    ensures r == if sandbox.abiVersion != 1 then Failure(AbiMismatch)
                 else if |Encode(content)| > sandbox.memoryLimit then Failure(ResourceExceeded)
                 else if fault.SetupFault? then Failure(fault.error)
                 else if |Encode(content)| > 65536 then Failure(ResourceExceeded)
                 else if fault.CallFault? then Failure(fault.error)
                 else Success(Answer(content, kanjiCount, specialHit))
  {
    if sandbox.abiVersion != SANDBOX_ABI_VERSION {
      return Failure(AbiMismatch);
    }
    var bytes := Encode(content);
    if |bytes| > sandbox.memoryLimit {
      return Failure(ResourceExceeded);
    }
    if fault.SetupFault? {
      return Failure(fault.error);
    }
    if |bytes| > PAGE_BYTES {
      return Failure(ResourceExceeded);
    }
    var memory := new Byte[PAGE_BYTES](i requires 0 <= i < PAGE_BYTES => if i < |bytes| then bytes[i] else 0);
    assert memory[0..0 + |bytes|] == bytes;
    if fault.CallFault? {
      return Failure(fault.error);
    }
    var wire := Analyze(memory, 0, |bytes|, CappedKanji(kanjiCount), if specialHit then 1 else 0);
    ScanRefinesCharacters(content);
    DecodeEncode(Answer(content, kanjiCount, specialHit));
    match DecodeWire(wire)
    case Success(proposal) => r := Success(proposal);
    case Failure(_) => r := Failure(InvalidWire(wire));
  }

  /** The guest's proposal means what the message says. Over 32768 bytes it is called suspicious; a special
      phrase is reported; otherwise the proposal stands for exactly the number of hits, up to 255, unless
      they overflow 32 bits, and then for nothing. Without 2147467263 token hits none overflow. */
  lemma AnswerMeansTotal(content: string, kanjiCount: nat, specialHit: bool)
    ensures var (answer, total) := (Answer(content, kanjiCount, specialHit), OoCounter.OoCount(content) + kanjiCount);
            && (answer == SuspiciousInput <==> |Encode(content)| > 32768)
            && (answer == SpecialPhrase <==> |Encode(content)| <= 32768 && specialHit)
            && (|Encode(content)| <= 32768 && !specialHit ==>
                  && (answer == ReactOnce <==> total == 1)
                  && (answer.SendStamped? <==> 2 <= OoCounter.OoCount(content) + CappedKanji(kanjiCount) <= 2147483647)
                  && (answer.SendStamped? ==> answer.count == if total < 255 then total else 255)
                  && (answer == Noop <==> !answer.SendStamped? && total != 1)
                  && (kanjiCount <= 2147467263 ==> (answer == Noop <==> total == 0)))
            && CappedKanji(kanjiCount) == (if kanjiCount < 2147483647 then kanjiCount else 2147483647)
  {
    ScanRefinesCharacters(content);
    ScanBytesBound(Encode(content));
  }
}
