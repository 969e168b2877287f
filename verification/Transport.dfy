/**
  * The agent encrypts a body in blocks, the server decrypts it in blocks of another length. RSA-OAEP itself
  * (RFC 8017, sections 7.1.1 and 7.1.2) is a pair of abstract functions with its length rules.
  */
module Transport {
  import opened Basics
  import opened Metrics
  import opened Codec

  const HASH_SIZE: nat := 32

  /** A key pair: modulus length in bytes, encryption with a choice of randomness, and decryption. */
  datatype Rsa = Rsa(size: nat, encrypt: (string, nat) -> Option<string>, decrypt: string -> Option<string>)

  /** Longest message of one block, k - 2 hLen - 2; negative for a key of under 66 bytes. */
  function StepOf(rsa: Rsa): int { rsa.size - 2 * HASH_SIZE - 2 }

  /**
    * A message of more than k - 66 bytes is an error, for two hashes of SHA-256 and 2 bytes of padding; whatever
    * encryption returns has k bytes and decrypts to the message.
    */
  ghost predicate MatchingKeys(rsa: Rsa) {
    forall m, seed ::
      && (|m| + 66 > rsa.size ==> rsa.encrypt(m, seed).None?)
      && (rsa.encrypt(m, seed).Some? ==>
            |rsa.encrypt(m, seed).value| == rsa.size && rsa.decrypt(rsa.encrypt(m, seed).value) == Some(m))
  }

  /** A block as the number it stands for, written with k bytes. */
  function Filled(c: string, k: nat): (r: string)
    requires |c| <= k
    ensures |r| == k
  {
    seq(k - |c|, _ => '\0') + c
  }

  /** Go takes a block shorter than k bytes for the number it would be with leading zeros. */
  ghost predicate ReadsAsNumber(rsa: Rsa) {
    forall c {:trigger Filled(c, rsa.size)} :: |c| <= rsa.size ==> rsa.decrypt(c) == rsa.decrypt(Filled(c, rsa.size))
  }

  // ---- Cutting into blocks ----

  function Chunks(s: string, step: nat): seq<string>
    requires step > 0
    decreases |s|
  {
    if s == "" then [] else if |s| <= step then [s] else [s[..step]] + Chunks(s[step..], step)
  }

  function Joined(blocks: seq<string>): string {
    if blocks == [] then "" else blocks[0] + Joined(blocks[1..])
  }

  lemma CeilStep(n: nat, d: nat)
    requires d > 0
    ensures (n + d + d - 1) / d == (n + d - 1) / d + 1
  {
    var q, r := (n + d - 1) / d, (n + d - 1) % d;
    assert n + d + d - 1 == (q + 1) * d + r;
    DivisionIs(n + d + d - 1, d, q + 1, r);
  }

  lemma DivisionIs(n: nat, d: nat, q: nat, r: nat)
    requires r < d && n == q * d + r
    ensures n / d == q
  {
    var p := n / d;
    assert n == p * d + n % d;
    assert p < q ==> (p + 1) * d <= q * d;
    assert q < p ==> (q + 1) * d <= p * d;
  }

  /** The blocks cover the text in order, there are ceil(n / step) of them, and none is empty or over-long. */
  lemma {:induction false} ChunksCover(s: string, step: nat)
    requires step > 0
    ensures Joined(Chunks(s, step)) == s
    ensures |Chunks(s, step)| == (|s| + step - 1) / step
    ensures forall i :: 0 <= i < |Chunks(s, step)| ==> 1 <= |Chunks(s, step)[i]| <= step
    decreases |s|
  {
    if s == "" {
      DivisionIs(step - 1, step, 0, step - 1);
    } else if |s| <= step {
      DivisionIs(|s| + step - 1, step, 1, |s| - 1);
      assert [s][1..] == [];
    } else {
      ChunksCover(s[step..], step);
      CeilStep(|s| - step, step);
    }
  }

  /** Cutting a concatenation of full blocks at their own length gives the blocks back. */
  lemma {:induction false} ChunksOfFullBlocks(blocks: seq<string>, k: nat)
    requires k > 0 && forall i :: 0 <= i < |blocks| ==> |blocks[i]| == k
    ensures Chunks(Joined(blocks), k) == blocks
    ensures |Joined(blocks)| == |blocks| * k
  {
    if blocks == [] {
    } else {
      var rest := Joined(blocks[1..]);
      ChunksOfFullBlocks(blocks[1..], k);
      var s := blocks[0] + rest;
      assert s[..k] == blocks[0] && s[k..] == rest;
      assert blocks == [blocks[0]] + blocks[1..];
      if rest == "" {
        assert s == blocks[0];
      }
    }
  }

  // ---- Encrypt and Decrypt ----

  /** The cipher blocks, the i-th under the randomness seeds(i); None once an encryption fails. */
  function EncryptBlocks(rsa: Rsa, seeds: nat -> nat, blocks: seq<string>, i: nat): Option<seq<string>>
    decreases |blocks|
  {
    if blocks == [] then Some([])
    else
      match rsa.encrypt(blocks[0], seeds(i))
      case None => None
      case Some(c) =>
        match EncryptBlocks(rsa, seeds, blocks[1..], i + 1)
        case None => None
        case Some(rest) => Some([c] + rest)
  }

  function Encrypted(key: Option<Rsa>, seeds: nat -> nat, data: string): Result<string, Error>
    requires key.Some? && data != "" ==> StepOf(key.value) > 0
  {
    if key.None? then Ok(data)
    else if data == "" then Ok("")
    else
      match EncryptBlocks(key.value, seeds, Chunks(data, StepOf(key.value)), 0)
      case None => Err(External)
      case Some(blocks) => Ok(Joined(blocks))
  }

  function DecryptBlocks(rsa: Rsa, blocks: seq<string>): Option<string> {
    if blocks == [] then Some("")
    else
      match rsa.decrypt(blocks[0])
      case None => None
      case Some(m) =>
        match DecryptBlocks(rsa, blocks[1..])
        case None => None
        case Some(rest) => Some(m + rest)
  }

  /** With a key set, an error of reading the body is not looked at. */
  function Decrypted(key: Option<Rsa>, body: string, readFails: bool): Result<string, Error>
    requires key.Some? && body != "" ==> key.value.size > 0
  {
    if key.None? then if readFails then Err(External) else Ok(body)
    else if body == "" then Ok("")
    else
      match DecryptBlocks(key.value, Chunks(body, key.value.size))
      case None => Err(External)
      case Some(text) => Ok(text)
  }

  lemma {:induction false} JoinedSnoc(blocks: seq<string>, b: string)
    ensures Joined(blocks + [b]) == Joined(blocks) + b
  {
    if blocks == [] {
      assert [b][1..] == [];
    } else {
      JoinedSnoc(blocks[1..], b);
      assert (blocks + [b])[1..] == blocks[1..] + [b];
    }
  }

  /** The cipher blocks the loop of Encrypt still has to produce. */
  ghost function BlocksFrom(rsa: Rsa, seeds: nat -> nat, data: string, start: nat, i: nat): Option<seq<string>>
    requires StepOf(rsa) > 0
  {
    if start >= |data| then Some([]) else EncryptBlocks(rsa, seeds, Chunks(data[start..], StepOf(rsa)), i)
  }

  ghost function Onto(done: seq<string>, rest: Option<seq<string>>): Option<seq<string>> {
    match rest case None => None case Some(blocks) => Some(done + blocks)
  }

  lemma NextBlock(rsa: Rsa, seeds: nat -> nat, data: string, start: nat, i: nat, done: seq<string>)
    requires StepOf(rsa) > 0 && start < |data|
    ensures var finish := if start + StepOf(rsa) > |data| then |data| else start + StepOf(rsa);
            Onto(done, BlocksFrom(rsa, seeds, data, start, i))
            == match rsa.encrypt(data[start..finish], seeds(i))
               case None => None
               case Some(c) => Onto(done + [c], BlocksFrom(rsa, seeds, data, start + StepOf(rsa), i + 1))
  {
    NextChunk(data, start, StepOf(rsa));
    var later := if start + StepOf(rsa) >= |data| then [] else Chunks(data[start + StepOf(rsa)..], StepOf(rsa));
    FirstBlock(rsa, seeds, Chunks(data[start..], StepOf(rsa))[0], later, i, done);
  }

  lemma FirstBlock(rsa: Rsa, seeds: nat -> nat, block: string, later: seq<string>, i: nat, done: seq<string>)
    ensures Onto(done, EncryptBlocks(rsa, seeds, [block] + later, i))
            == match rsa.encrypt(block, seeds(i))
               case None => None
               case Some(c) => Onto(done + [c], EncryptBlocks(rsa, seeds, later, i + 1))
  {
    assert ([block] + later)[1..] == later;
    assert forall c: string, more: seq<string> :: done + ([c] + more) == (done + [c]) + more;
  }

  /** Reporter.Encrypt. Without a positive step a non-empty body would loop for ever or slice backwards. */
  method Encrypt(key: Option<Rsa>, seeds: nat -> nat, data: string) returns (r: Result<string, Error>)
    requires key.Some? && data != "" ==> StepOf(key.value) > 0
    ensures r == Encrypted(key, seeds, data)
  {
    if key.None? {
      return Ok(data);
    }
    var dataLen := |data|;
    var step := StepOf(key.value);
    var encrypted := "";
    ghost var done: seq<string> := [];
    var start, i := 0, 0;
    assert data[0..] == data;
    assert forall blocks: seq<string> :: [] + blocks == blocks;
    while start < dataLen
      invariant 0 <= start && encrypted == Joined(done)
      invariant data != "" ==> Onto(done, BlocksFrom(key.value, seeds, data, start, i))
                               == EncryptBlocks(key.value, seeds, Chunks(data, step), 0)
      invariant data == "" ==> done == []
      decreases dataLen - start
    {
      var finish := start + step;
      if finish > dataLen {
        finish := dataLen;
      }
      NextBlock(key.value, seeds, data, start, i, done);
      var block := key.value.encrypt(data[start..finish], seeds(i));
      if block.None? {
        return Err(External);
      }
      JoinedSnoc(done, block.value);
      encrypted := encrypted + block.value;
      done := done + [block.value];
      start, i := start + step, i + 1;
    }
    assert done + [] == done;
    return Ok(encrypted);
  }

  lemma NextChunk(data: string, start: nat, step: nat)
    requires start < |data| && step > 0
    ensures var finish := if start + step > |data| then |data| else start + step;
            Chunks(data[start..], step)
            == [data[start..finish]] + if start + step >= |data| then [] else Chunks(data[start + step..], step)
  {
    var s := data[start..];
    if |s| > step {
      assert s[..step] == data[start..start + step] && s[step..] == data[start + step..];
    } else {
      assert s == data[start..|data|];
    }
  }

  /** Handler.Decrypt. */
  method Decrypt(key: Option<Rsa>, body: string, readFails: bool) returns (r: Result<string, Error>)
    requires key.Some? && body != "" ==> key.value.size > 0
    ensures r == Decrypted(key, body, readFails)
  {
    if key.None? {
      if readFails {
        return Err(External);
      }
      return Ok(body);
    }
    var dataLen := |body|;
    var step := key.value.size;
    var decrypted := "";
    ghost var whole := if body == "" then Some("") else DecryptBlocks(key.value, Chunks(body, step));
    var start := 0;
    assert body[0..] == body;
    assert whole.Some? ==> "" + whole.value == whole.value;
    while start < dataLen
      invariant 0 <= start
      invariant var rest := if start >= dataLen then Some("")
                            else DecryptBlocks(key.value, Chunks(body[start..], step));
                whole == match rest case None => None case Some(text) => Some(decrypted + text)
      decreases dataLen - start
    {
      var finish := start + step;
      if finish > dataLen {
        finish := dataLen;
      }
      NextChunk(body, start, step);
      var block := key.value.decrypt(body[start..finish]);
      if block.None? {
        return Err(External);
      }
      assert forall more: string :: decrypted + (block.value + more) == (decrypted + block.value) + more;
      decrypted := decrypted + block.value;
      start := start + step;
    }
    assert decrypted + "" == decrypted;
    return Ok(decrypted);
  }

  // ---- Round trip ----

  lemma {:induction false} CipherBlocks(rsa: Rsa, seeds: nat -> nat, blocks: seq<string>, i: nat)
    requires MatchingKeys(rsa) && EncryptBlocks(rsa, seeds, blocks, i).Some?
    ensures var cs := EncryptBlocks(rsa, seeds, blocks, i).value;
            |cs| == |blocks|
            && forall j :: 0 <= j < |cs| ==> |cs[j]| == rsa.size && rsa.decrypt(cs[j]) == Some(blocks[j])
    decreases |blocks|
  {
    if blocks == [] {
    } else {
      CipherBlocks(rsa, seeds, blocks[1..], i + 1);
      var rest := EncryptBlocks(rsa, seeds, blocks[1..], i + 1).value;
      var cs := EncryptBlocks(rsa, seeds, blocks, i).value;
      assert forall j :: 1 <= j < |cs| ==> cs[j] == rest[j - 1] && blocks[j] == blocks[1..][j - 1];
    }
  }

  lemma {:induction false} DecryptOfBlocks(rsa: Rsa, cs: seq<string>, blocks: seq<string>)
    requires |cs| == |blocks| && forall j :: 0 <= j < |cs| ==> rsa.decrypt(cs[j]) == Some(blocks[j])
    ensures DecryptBlocks(rsa, cs) == Some(Joined(blocks))
  {
    if cs == [] {
    } else {
      DecryptOfBlocks(rsa, cs[1..], blocks[1..]);
    }
  }

  lemma {:induction false} JoinedPrefix(blocks: seq<string>, n: nat)
    requires n <= |blocks|
    ensures Joined(blocks[..n]) + Joined(blocks[n..]) == Joined(blocks)
  {
    if n == 0 {
      assert blocks[..0] == [] && blocks[0..] == blocks;
    } else {
      JoinedPrefix(blocks[1..], n - 1);
      assert blocks[..n][1..] == blocks[1..][..n - 1] && blocks[n..] == blocks[1..][n - 1..];
      assert blocks[0] + (Joined(blocks[1..][..n - 1]) + Joined(blocks[n..])) == Joined(blocks);
    }
  }

  /** A body that broke off after n whole blocks. */
  function FirstBlocks(body: string, k: nat, n: nat): string {
    if n * k <= |body| then body[..n * k] else body
  }

  /**
    * The ciphertext is exactly one block of k bytes for every started k - 66 bytes. Cut after any whole
    * number of blocks, with or without a read error, it decrypts to the same number of plain blocks.
    */
  lemma DecryptOfCut(rsa: Rsa, seeds: nat -> nat, data: string, n: nat, readFails: bool)
    requires MatchingKeys(rsa) && StepOf(rsa) > 0 && Encrypted(Some(rsa), seeds, data).Ok?
    requires n <= |Chunks(data, StepOf(rsa))|
    ensures var body, blocks := Encrypted(Some(rsa), seeds, data).value, Chunks(data, StepOf(rsa));
            && |body| == |blocks| * rsa.size
            && |FirstBlocks(body, rsa.size, n)| == n * rsa.size
            && Decrypted(Some(rsa), FirstBlocks(body, rsa.size, n), readFails) == Ok(Joined(blocks[..n]))
  {
    if data != "" {
      var blocks := Chunks(data, StepOf(rsa));
      var cs := EncryptBlocks(rsa, seeds, blocks, 0).value;
      CipherBlocks(rsa, seeds, blocks, 0);
      ChunksOfFullBlocks(cs, rsa.size);
      ChunksOfFullBlocks(cs[..n], rsa.size);
      JoinedPrefix(cs, n);
      assert n * rsa.size <= |cs| * rsa.size;
      assert FirstBlocks(Joined(cs), rsa.size, n) == Joined(cs[..n]);
      DecryptOfBlocks(rsa, cs[..n], blocks[..n]);
    }
  }

  /** For every body, every matching key pair of more than 66 bytes and every randomness, or with no keys at all. */
  lemma DecryptOfEncrypt(key: Option<Rsa>, seeds: nat -> nat, data: string)
    requires key.Some? ==> MatchingKeys(key.value) && key.value.size > 66
    requires Encrypted(key, seeds, data).Ok?
    ensures key.Some? && Encrypted(key, seeds, data).value != "" ==> key.value.size > 0
    ensures Decrypted(key, Encrypted(key, seeds, data).value, false) == Ok(data)
    ensures key.Some? ==> |Encrypted(key, seeds, data).value|
                          == (|data| + key.value.size - 67) / (key.value.size - 66) * key.value.size
  {
    if key.Some? {
      var blocks := Chunks(data, StepOf(key.value));
      var cipher := Encrypted(key, seeds, data).value;
      ChunksCover(data, StepOf(key.value));
      DecryptOfCut(key.value, seeds, data, |blocks|, false);
      assert blocks[..|blocks|] == blocks;
      assert FirstBlocks(cipher, key.value.size, |blocks|) == cipher;
    }
  }

  /** Encryption can only fail by its randomness: no block is ever empty or too long for the cipher. */
  lemma {:induction false} EncryptFailsOnlyByCipher(rsa: Rsa, seeds: nat -> nat, blocks: seq<string>, i: nat)
    requires forall m, seed :: |m| + 66 <= rsa.size ==> rsa.encrypt(m, seed).Some?
    requires forall j :: 0 <= j < |blocks| ==> |blocks[j]| + 66 <= rsa.size
    ensures EncryptBlocks(rsa, seeds, blocks, i).Some?
    decreases |blocks|
  {
    if blocks == [] {
    } else {
      EncryptFailsOnlyByCipher(rsa, seeds, blocks[1..], i + 1);
    }
  }

  lemma EncryptSucceeds(rsa: Rsa, seeds: nat -> nat, data: string)
    requires rsa.size > 66 && forall m, seed :: |m| + 66 <= rsa.size ==> rsa.encrypt(m, seed).Some?
    ensures Encrypted(Some(rsa), seeds, data).Ok?
  {
    if data != "" {
      ChunksCover(data, StepOf(rsa));
      EncryptFailsOnlyByCipher(rsa, seeds, Chunks(data, StepOf(rsa)), 0);
    }
  }

  lemma {:induction false} CipherOfBlock(rsa: Rsa, seeds: nat -> nat, blocks: seq<string>, i: nat, j: nat)
    requires EncryptBlocks(rsa, seeds, blocks, i).Some? && j < |blocks|
    ensures var cs := EncryptBlocks(rsa, seeds, blocks, i).value;
            |cs| == |blocks| && rsa.encrypt(blocks[j], seeds(i + j)) == Some(cs[j])
    decreases |blocks|
  {
    if j > 0 {
      CipherOfBlock(rsa, seeds, blocks[1..], i + 1, j - 1);
    } else if |blocks| > 1 {
      CipherOfBlock(rsa, seeds, blocks[1..], i + 1, 0);
    }
  }

  /** The ciphertext is the blocks of k - 66 bytes in order, each encrypted under randomness of its own. */
  lemma EncryptedBlocks(rsa: Rsa, seeds: nat -> nat, data: string) returns (cs: seq<string>)
    requires MatchingKeys(rsa) && rsa.size > 66 && Encrypted(Some(rsa), seeds, data).Ok?
    ensures Encrypted(Some(rsa), seeds, data) == Ok(Joined(cs)) && |cs| == |Chunks(data, rsa.size - 66)|
    ensures forall j :: 0 <= j < |cs| ==> rsa.encrypt(Chunks(data, rsa.size - 66)[j], seeds(j)) == Some(cs[j])
  {
    if data == "" {
      cs := [];
    } else {
      var blocks := Chunks(data, rsa.size - 66);
      cs := EncryptBlocks(rsa, seeds, blocks, 0).value;
      CipherBlocks(rsa, seeds, blocks, 0);
      forall j | 0 <= j < |cs| ensures rsa.encrypt(blocks[j], seeds(j)) == Some(cs[j]) {
        CipherOfBlock(rsa, seeds, blocks, 0, j);
      }
    }
  }

  // ---- A batch over the wire ----

  /** From the agent's batch to the server's: marshal, encrypt, decrypt, unmarshal. */
  lemma BatchArrives(key: Option<Rsa>, seeds: nat -> nat, batch: seq<Metric>, floats: FloatText)
    requires JsonFloats(floats) && AllFinite(batch) && forall i :: 0 <= i < |batch| ==> ValidText(batch[i])
    requires key.Some? ==> MatchingKeys(key.value) && StepOf(key.value) > 0
    requires Encrypted(key, seeds, Marshal(batch, floats).value).Ok?
    ensures var body := Encrypted(key, seeds, Marshal(batch, floats).value).value;
            (key.Some? && body != "" ==> key.value.size > 0)
            && Decrypted(key, body, false) == Ok(Marshal(batch, floats).value)
            && Unmarshal(Marshal(batch, floats).value, floats) == Some(batch)
  {
    DecryptOfEncrypt(key, seeds, Marshal(batch, floats).value);
    UnmarshalOfMarshal(batch, floats);
    SaneMetricsIdentityIff(batch);
  }

  lemma FewerChunksShorter(text: string, step: nat, n: nat)
    requires step > 0 && n < |Chunks(text, step)|
    ensures var kept := Joined(Chunks(text, step)[..n]); |kept| < |text| && kept == text[..|kept|]
  {
    var blocks := Chunks(text, step);
    ChunksCover(text, step);
    JoinedPrefix(blocks, n);
    assert Joined(blocks[n..]) == blocks[n..][0] + Joined(blocks[n..][1..]);
  }

  /** The length of what n bytes have behind their last whole block of k bytes. */
  function Rest(n: nat, k: nat): (r: nat)
    requires k > 0
    ensures r < k && r <= n
  {
    if n < k then n else Rest(n - k, k)
  }

  function Tail(body: string, k: nat): (t: string)
    requires k > 0
    ensures |t| < k && |t| <= |body|
  {
    body[|body| - Rest(|body|, k)..]
  }

  lemma {:induction false} WholeBlockCount(length: nat, k: nat) returns (n: nat)
    requires k > 0
    ensures length == n * k + Rest(length, k)
  {
    n := 0;
    if length >= k {
      var rest := WholeBlockCount(length - k, k);
      n := rest + 1;
    }
  }

  lemma RemainderIs(n: nat, d: nat, q: nat, r: nat)
    requires r < d && n == q * d + r
    ensures n % d == r
  {
    DivisionIs(n, d, q, r);
    assert n == n / d * d + n % d;
  }

  lemma TailIsRemainder(body: string, k: nat) returns (n: nat)
    requires k > 0
    ensures |body| == n * k + |Tail(body, k)| && |body| % k == |Tail(body, k)|
  {
    n := WholeBlockCount(|body|, k);
    RemainderIs(|body|, k, n, |Tail(body, k)|);
  }

  /** The whole blocks first, then the tail: one of them failing fails all. */
  function Appended(whole: Option<string>, rest: Option<string>): Option<string> {
    if whole.None? || rest.None? then None else Some(whole.value + rest.value)
  }

  lemma AppendedNothing(x: Option<string>)
    ensures Appended(Some(""), x) == x && Appended(x, Some("")) == x
  {
    if x.Some? {
      assert "" + x.value == x.value && x.value + "" == x.value;
    }
  }

  lemma AppendedAssociates(x: Option<string>, y: Option<string>, z: Option<string>)
    ensures Appended(x, Appended(y, z)) == Appended(Appended(x, y), z)
  {
    if x.Some? && y.Some? && z.Some? {
      assert x.value + (y.value + z.value) == (x.value + y.value) + z.value;
    }
  }

  lemma FullBlock(rsa: Rsa, b: string, rest: string)
    requires rsa.size > 0 && |b| == rsa.size
    ensures DecryptBlocks(rsa, Chunks(b + rest, rsa.size))
            == Appended(rsa.decrypt(b), DecryptBlocks(rsa, Chunks(rest, rsa.size)))
  {
    var s := b + rest;
    if rest == "" {
      assert s == b && Chunks(s, rsa.size)[1..] == [];
    } else {
      assert s[..rsa.size] == b && s[rsa.size..] == rest;
      var blocks := Chunks(s, rsa.size);
      assert blocks[0] == b && blocks[1..] == Chunks(rest, rsa.size);
    }
  }

  lemma {:induction false} RaggedBlocks(rsa: Rsa, body: string)
    requires rsa.size > 0 && Tail(body, rsa.size) != ""
    ensures var t := Tail(body, rsa.size);
            DecryptBlocks(rsa, Chunks(body, rsa.size))
            == Appended(DecryptBlocks(rsa, Chunks(body[..|body| - |t|], rsa.size)), rsa.decrypt(t))
    decreases |body|
  {
    var k := rsa.size;
    var t := Tail(body, k);
    if |body| < k {
      assert body[..0] == "" && Chunks(body, k) == [body] && [body][1..] == [];
      AppendedNothing(rsa.decrypt(t));
      assert DecryptBlocks(rsa, [body]) == Appended(rsa.decrypt(t), Some(""));
    } else {
      var b, rest := body[..k], body[k..];
      RaggedBlocks(rsa, rest);
      FullBlock(rsa, b, rest);
      FullBlock(rsa, b, rest[..|rest| - |t|]);
      assert body == b + rest && body[..|body| - |t|] == b + rest[..|rest| - |t|];
      var x, y, z := rsa.decrypt(b), DecryptBlocks(rsa, Chunks(rest[..|rest| - |t|], k)), rsa.decrypt(t);
      AppendedAssociates(x, y, z);
    }
  }

  /**
    * With a key, a body that is not a whole number of blocks is decrypted as its whole blocks followed by its
    * tail, as if that were one more block. It is an error exactly when one of them does not decrypt.
    */
  lemma RaggedBodyFailsIff(rsa: Rsa, body: string, readFails: bool)
    requires rsa.size > 0 && |body| % rsa.size != 0
    ensures var t := Tail(body, rsa.size);
            var whole := Decrypted(Some(rsa), body[..|body| - |t|], readFails);
            && (Decrypted(Some(rsa), body, readFails) == Err(External) <==> whole.Err? || rsa.decrypt(t).None?)
            && (whole.Ok? && rsa.decrypt(t).Some? ==>
                  Decrypted(Some(rsa), body, readFails) == Ok(whole.value + rsa.decrypt(t).value))
  {
    var n := TailIsRemainder(body, rsa.size);
    RaggedBlocks(rsa, body);
  }

  /** A valid block that starts with a zero byte decrypts just as well without it. */
  lemma LeadingZeroDecrypts(rsa: Rsa, m: string, seed: nat, readFails: bool)
    requires MatchingKeys(rsa) && ReadsAsNumber(rsa) && rsa.size > 1
    requires rsa.encrypt(m, seed).Some? && rsa.encrypt(m, seed).value[0] == '\0'
    ensures var body := rsa.encrypt(m, seed).value[1..];
            |body| % rsa.size != 0 && Decrypted(Some(rsa), body, readFails) == Ok(m)
  {
    var c := rsa.encrypt(m, seed).value;
    assert Filled(c[1..], rsa.size) == c;
    assert Chunks(c[1..], rsa.size) == [c[1..]];
    assert DecryptBlocks(rsa, [c[1..]]) == Some(m + "");
    assert m + "" == m;
  }

  lemma FewerBlocks(n: nat, count: nat, k: nat, r: nat)
    requires r < k && n * k + r <= count * k
    ensures n <= count
    ensures n * k + r < count * k ==> n < count
  {
    assert n > count ==> (n - count) * k >= k;
  }

  /** What is decrypted of an encrypted body that broke off after m bytes: n plain blocks, and its tail. */
  lemma CutBodyReads(rsa: Rsa, seeds: nat -> nat, data: string, m: nat, readFails: bool) returns (n: nat)
    requires MatchingKeys(rsa) && StepOf(rsa) > 0 && Encrypted(Some(rsa), seeds, data).Ok?
    requires m <= |Encrypted(Some(rsa), seeds, data).value|
    ensures var body, blocks := Encrypted(Some(rsa), seeds, data).value, Chunks(data, StepOf(rsa));
            var t := Tail(body[..m], rsa.size);
            && n <= |blocks| && (m < |body| ==> n < |blocks|)
            && Decrypted(Some(rsa), body[..m], readFails)
               == if t == "" then Ok(Joined(blocks[..n]))
                  else match rsa.decrypt(t) case None => Err(External) case Some(p) => Ok(Joined(blocks[..n]) + p)
  {
    var body, k := Encrypted(Some(rsa), seeds, data).value, rsa.size;
    var cut := body[..m];
    var t := Tail(cut, k);
    n := TailIsRemainder(cut, k);
    DecryptOfCut(rsa, seeds, data, 0, readFails);
    FewerBlocks(n, |Chunks(data, StepOf(rsa))|, k, |t|);
    DecryptOfCut(rsa, seeds, data, n, readFails);
    assert FirstBlocks(body, k, n) == cut[..m - |t|];
    if t != "" {
      RaggedBodyFailsIff(rsa, cut, readFails);
    } else {
      assert cut[..m] == cut;
    }
  }

  /**
    * Decrypt ignores read errors, so a body that broke off may decrypt without an error. It is taken for a batch
    * exactly when there is a tail, the tail decrypts, and what it decrypts to completes the n whole blocks to a
    * batch. After whole blocks alone it never is.
    */
  lemma CutBodyIsTakenIff(rsa: Rsa, seeds: nat -> nat, batch: seq<Metric>, floats: FloatText, m: nat, readFails: bool)
    returns (n: nat)
    requires JsonFloats(floats) && AllFinite(batch) && MatchingKeys(rsa) && StepOf(rsa) > 0
    requires Encrypted(Some(rsa), seeds, Marshal(batch, floats).value).Ok?
    requires m < |Encrypted(Some(rsa), seeds, Marshal(batch, floats).value).value|
    ensures var text := Marshal(batch, floats).value;
            var body, blocks := Encrypted(Some(rsa), seeds, text).value, Chunks(text, StepOf(rsa));
            var t, r := Tail(body[..m], rsa.size), Decrypted(Some(rsa), body[..m], readFails);
            && n < |blocks|
            && (r.Ok? && Unmarshal(r.value, floats).Some? <==>
                t != "" && rsa.decrypt(t).Some?
                && Unmarshal(Joined(blocks[..n]) + rsa.decrypt(t).value, floats).Some?)
  {
    var text := Marshal(batch, floats).value;
    n := CutBodyReads(rsa, seeds, text, m, readFails);
    FewerChunksShorter(text, StepOf(rsa), n);
    UnmarshalOfPrefix(batch, floats, |Joined(Chunks(text, StepOf(rsa))[..n])|);
  }
}
