/** `read_string`: the bytes from an address up to, and not including, the
    first zero byte, turned into text one code point per byte. */
module StringReader {
  import opened Results
  import opened Utf8
  import opened Image

  /** The image's addresses from `address` upwards; it shrinks at every step
      of a read, which is what makes the read terminate. */
  ghost function Above(memory: map<int, byte>, address: int): set<int>
  {
    set k | k in memory && k >= address
  }

  lemma AboveShrinks(memory: map<int, byte>, address: int)
    requires address in memory
    ensures Above(memory, address + 1) < Above(memory, address)
  {
    assert address in Above(memory, address);
  }

  /** The bytes `read_string(address)` accumulates: a failure at the first
      address that cannot be read before a zero byte is met. */
  function CString(memory: map<int, byte>, address: int): (r: Result<seq<byte>, Fault>)
    ensures r.Success? ==>
              (forall j | address <= j < address + |r.value| :: j in memory && memory[j] == r.value[j - address] != 0)
              && address + |r.value| in memory && memory[address + |r.value|] == 0
    ensures r.Failure? ==>
              r.error.UnreadableByte? && r.error.address >= address && r.error.address !in memory
              && forall j | address <= j < r.error.address :: j in memory && memory[j] != 0
    decreases Above(memory, address)
  {
    if address !in memory then Failure(UnreadableByte(address))
    else if memory[address] == 0 then Success([])
    else
      AboveShrinks(memory, address);
      match CString(memory, address + 1)
      case Failure(e) => Failure(e)
      case Success(rest) =>
        var bs := [memory[address]] + rest;
        assert forall j | address + 1 <= j < address + |bs| :: j in memory && bs[j - address] == rest[j - (address + 1)];
        Success(bs)
  }

  /** `read` followed by what `r` read, a failure staying a failure. */
  function Prepend(read: seq<byte>, r: Result<seq<byte>, Fault>): Result<seq<byte>, Fault>
  {
    match r
    case Success(rest) => Success(read + rest)
    case Failure(e) => Failure(e)
  }

  lemma PrependNothing(r: Result<seq<byte>, Fault>)
    ensures Prepend([], r) == r
  {
    if r.Success? { assert [] + r.value == r.value; }
  }

  /** One step of the read moves a non-zero byte from what is left to read
      onto what has been read. */
  lemma PrependStep(memory: map<int, byte>, address: int, read: seq<byte>)
    requires address in memory && memory[address] != 0
    ensures Prepend(read, CString(memory, address)) == Prepend(read + [memory[address]], CString(memory, address + 1))
  {
    var x := memory[address];
    AboveShrinks(memory, address);
    match CString(memory, address + 1) {
      case Success(rest) => assert read + ([x] + rest) == (read + [x]) + rest;
      case Failure(_) =>
    }
  }

  /** The value `read_string(address)` returns. */
  function ReadStringValue(memory: map<int, byte>, address: int): Result<string, Fault>
  {
    match CString(memory, address)
    case Success(bs) => Success(Latin1(bs))
    case Failure(e) => Failure(e)
  }

  /** When readable non-zero bytes run from `address` up to a zero byte at
      `address + n`, the read succeeds and returns one character per byte
      before it, character i having code point `memory[address + i]`; the
      text never holds a zero character. */
  lemma ReadStringCharacters(memory: map<int, byte>, address: int, n: nat)
    requires forall j | address <= j < address + n :: j in memory && memory[j] != 0
    requires address + n in memory && memory[address + n] == 0
    ensures ReadStringValue(memory, address).Success?
    ensures var s := ReadStringValue(memory, address).value;
            |s| == n && (forall i | 0 <= i < n :: address + i in memory && s[i] as int == memory[address + i])
            && '\0' !in s
  {
    var r := CString(memory, address);
    assert r.Success?;
    var bs := r.value;
    assert |bs| == n by {
      assert memory[address + |bs|] == 0 && memory[address + n] == 0;
    }
    forall i | 0 <= i < n ensures address + i in memory && bs[i] == memory[address + i] && bs[i] != 0 {
      var j := address + i;
      assert j in memory && memory[j] == bs[j - address] != 0;
    }
    var s := Latin1(bs);
    assert forall i | 0 <= i < n :: s[i] as int == bs[i];
  }

  /** `name` is stored at `address`, readable, without a zero byte, and
      followed by a zero byte. */
  ghost predicate StoresCString(memory: map<int, byte>, address: int, name: seq<byte>)
  {
    && (forall j | address <= j < address + |name| :: j in memory && memory[j] == name[j - address] && memory[j] != 0)
    && address + |name| in memory && memory[address + |name|] == 0
  }

  /** The bytes stored before a zero byte are exactly what is read. */
  lemma CStringOf(memory: map<int, byte>, address: int, name: seq<byte>)
    requires StoresCString(memory, address, name)
    ensures CString(memory, address) == Success(name)
    ensures ReadStringValue(memory, address) == Success(Latin1(name))
  {
    var c := CString(memory, address);
    ReadStringCharacters(memory, address, |name|);
    assert c.Success?;
    assert |c.value| == |name| by {
      assert memory[address + |c.value|] == 0 && memory[address + |name|] == 0;
    }
    forall i | 0 <= i < |name| ensures c.value[i] == name[i] {
      var j := address + i;
      assert memory[j] == name[j - address] == c.value[j - address];
    }
    assert c.value == name;
  }

  /** The empty text exactly when the first byte is zero. */
  lemma ReadStringEmpty(memory: map<int, byte>, address: int)
    ensures ReadStringValue(memory, address) == Success([]) <==> address in memory && memory[address] == 0
  {
  }

  /** `read_string`, as the script runs it: read a byte, stop at zero,
      otherwise append `chr(x).encode()` to the buffer and move on; decode the
      buffer at the end. */
  method ReadString(memory: map<int, byte>, address: int) returns (r: Result<string, Fault>)
    ensures r == ReadStringValue(memory, address)
  {
    var result: seq<byte> := [];
    var start := address;
    ghost var read: seq<byte> := [];
    PrependNothing(CString(memory, address));
    var next := ReadByte(memory, start);
    while next.Success? && next.value != 0
      invariant start == address + |read|
      invariant next == ReadByte(memory, start)
      invariant result == EncodeAll(read)
      invariant CString(memory, address) == Prepend(read, CString(memory, start))
      decreases Above(memory, start)
    {
      var x := next.value;
      AboveShrinks(memory, start);
      EncodeAllSnoc(read, x);
      PrependStep(memory, start, read);
      result := result + EncodeCodePoint(x);
      read := read + [x];
      start := start + 1;
      next := ReadByte(memory, start);
    }
    if next.Failure? {
      return Failure(next.error);
    }
    assert read + [] == read;
    DecodeEncodeAll(read);
    r := Success(Decode(result).value);
  }
}
