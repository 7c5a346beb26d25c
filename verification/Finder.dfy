/** The two versions of find_nl_and_hash that mmuniq can be built with. */
module Finder {
  import opened Basics
  import opened Lines
  import opened NlHash

  /** With SSE the block routine; with NOSSE memchr and then siphash24 under two constant keys. */
  datatype Variant<!W> = Sse(cipher: Cipher<W>) | NoSse(sip: seq<byte> -> uint64)

  function HashOf<W>(v: Variant<W>, line: seq<byte>): uint64 {
    match v
    case Sse(cipher) => LineHash(cipher, line)
    case NoSse(sip) => sip(line)
  }

  function HashFn<W>(v: Variant<W>): (f: seq<byte> -> uint64)
    ensures forall line :: f(line) == HashOf(v, line)
  {
    line => HashOf(v, line)
  }

  /** find_nl_and_hash on mem[b .. b + sz): the first newline, and the hash of the line in front of it. */
  method Find<W>(v: Variant<W>, mem: seq<byte>, b: nat, sz: nat) returns (at: Option<nat>, h: uint64)
    requires b + (sz + 15) / 16 * 16 <= |mem|
    ensures var line := LineFrom(mem, b, b + sz);
            at == (if |line| < sz then Some(b + |line|) else None) && h == HashOf(v, line)
  {
    match v
    case Sse(cipher) => at, h := FindNlAndHash(cipher, mem, b, sz);
    case NoSse(sip) =>
      var n := FirstNl(mem[b..b + sz]);
      at := if n < sz then Some(b + n) else None;
      h := sip(mem[b..b + n]);
  }
}
