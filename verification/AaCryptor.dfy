/** Decryption of a received record, as the cryptor does it. */
module AaCryptor {
  import opened Bytes

  /** What one read on the TLS object does: data, possibly none; no more data yet; or a failure. */
  datatype SslRead = Chunk(data: seq<byte>) | WantRead | Failure

  /** What decrypt hands back for the reads it is going to see; None is a raised exception. */
  function DecryptResult(script: seq<SslRead>): Option<seq<byte>> {
    if script == [] || script[0] == WantRead || script[0] == Chunk([]) then Some([])
    else if script[0] == Failure then None
    else DecryptResult(script[1..])
  }

  /** The plaintext of the record: all data that can be read before the object asks for more. */
  function Plaintext(script: seq<SslRead>): seq<byte> {
    if script == [] || !script[0].Chunk? || script[0].data == [] then []
    else script[0].data + Plaintext(script[1..])
  }

  /** The read loop of decrypt; the buffer is extended only after the loop, with the chunk that ended it. */
  method Decrypt(script: seq<SslRead>) returns (r: Option<seq<byte>>)
    ensures r == DecryptResult(script)
  {
    var buf: seq<byte> := [];
    var i := 0;
    while true
      invariant 0 <= i <= |script| && buf == []
      invariant DecryptResult(script) == DecryptResult(script[i..])
      decreases |script| - i
    {
      if i == |script| || script[i] == WantRead {
        return Some(buf);
      }
      if script[i] == Failure {
        return None;
      }
      if script[i].data == [] {
        buf := buf + script[i].data;
        assert buf == [];
        return Some(buf);
      }
      i := i + 1;
    }
  }

  /** No plaintext ever comes back: decrypt is right exactly for records that hold none. */
  lemma {:induction false} DecryptKeepsNothing(script: seq<SslRead>)
    ensures DecryptResult(script).Some? ==> DecryptResult(script).value == []
    ensures DecryptResult(script) == Some(Plaintext(script)) <==>
            script == [] || script[0] == WantRead || script[0] == Chunk([])
  {
    if script != [] && script[0].Chunk? && script[0].data != [] {
      DecryptKeepsNothing(script[1..]);
    }
  }

  /** It raises exactly if a read fails before one that yields nothing. */
  lemma {:induction false} DecryptRaisesExactly(script: seq<SslRead>)
    ensures DecryptResult(script) == None <==> exists n: nat :: FailsAt(script, n)
  {
    if script == [] || !script[0].Chunk? || script[0].data == [] {
      assert script != [] && script[0] == Failure ==> FailsAt(script, 0);
    } else {
      var rest := script[1..];
      DecryptRaisesExactly(rest);
      assert forall i :: 0 < i < |script| ==> script[i] == rest[i - 1];
      if n: nat :| FailsAt(script, n) {
        assert FailsAt(rest, n - 1);
      }
      if n: nat :| FailsAt(rest, n) {
        assert FailsAt(script, n + 1);
      }
    }
  }

  /** Read n is the first that is no data, and it fails. */
  ghost predicate FailsAt(script: seq<SslRead>, n: nat) {
    && n < |script| && script[n] == Failure
    && forall i :: 0 <= i < n ==> script[i].Chunk? && script[i].data != []
  }

  /** A record of one byte comes back empty. */
  lemma DecryptLosesByte()
    ensures var script := [Chunk([1]), WantRead];
      Plaintext(script) == [1] && DecryptResult(script) == Some([])
  {
    var script := [Chunk([1]), WantRead];
    assert script[1..] == [WantRead];
    assert Plaintext(script[1..]) == [];
  }
}
