/** internal/storage/filestorage: metrics as one line of JSON in a file that every flush truncates first. */
module FileStore {
  import opened Basics
  import opened Metrics
  import opened MemStore
  import opened Text
  import opened Codec

  // ---- bufio.Scanner with its default buffer ----

  /** bufio.MaxScanTokenSize: a longer line ends the scan, and nobody asks the scanner why. */
  const TOKEN_LIMIT: nat := 65536

  function LineEnd(data: string): (e: nat)
    ensures e <= |data| && (e < |data| ==> data[e] == '\n')
    ensures forall i :: 0 <= i < e ==> data[i] != '\n'
  {
    if data == [] || data[0] == '\n' then 0 else LineEnd(data[1..]) + 1
  }

  function DropCR(line: string): string {
    if line != [] && line[|line| - 1] == '\r' then line[..|line| - 1] else line
  }

  function ScanLines(data: string): seq<string>
    decreases |data|
  {
    if data == [] then []
    else
      var e := LineEnd(data);
      if e >= TOKEN_LIMIT then []
      else if e == |data| then [DropCR(data)]
      else [DropCR(data[..e])] + ScanLines(data[e + 1..])
  }

  // ---- Flush and Restore as functions of the file's content; None is a missing file ----

  datatype FileFault = NoFault | OpenFails | WriteFails(kept: nat)

  function FlushFile(file: Option<string>, s: seq<Metric>, floats: FloatText, fault: FileFault)
    : (Option<string>, bool)
  {
    if fault.OpenFails? then (file, false)
    else
      match Marshal(s, floats)
      case None => (Some(""), false)
      case Some(text) =>
        if fault.WriteFails? then (Some(if fault.kept < |text| then text[..fault.kept] else text), false)
        else (Some(text), true)
  }

  datatype ReadFault = NoReadFault | CannotOpen | BreaksAfter(bytes: nat)

  /** What Restore gets to see: a read error ends the text, and the scanner takes what came before it. */
  function Readable(file: Option<string>, fault: ReadFault): Option<string> {
    if file.None? || fault.CannotOpen? then None
    else if fault.BreaksAfter? && fault.bytes < |file.value| then Some(file.value[..fault.bytes])
    else file
  }

  function RestoredLines(s: seq<Metric>, lines: seq<string>, floats: FloatText): (seq<Metric>, bool)
    decreases |lines|
  {
    if lines == [] then (s, true)
    else
      match Unmarshal(lines[0], floats)
      case None => (s, false)
      case Some(ms) => RestoredLines(UpsertedAll(s, ms), lines[1..], floats)
  }

  function RestoredFile(s: seq<Metric>, file: Option<string>, floats: FloatText): (seq<Metric>, bool) {
    match file
    case None => (s, false)
    case Some(data) => RestoredLines(s, ScanLines(data), floats)
  }

  class Storage {
    const memory: MemStore.Storage
    const floats: FloatText
    var file: Option<string>

    /** filestorage.New does not read the file; the manager restores when told to. */
    constructor (file: Option<string>, floats: FloatText)
      ensures memory.Valid() && fresh(memory) && fresh(memory.metrics) && memory.Contents() == []
      ensures this.file == file && this.floats == floats
    {
      memory := new MemStore.Storage();
      this.file := file;
      this.floats := floats;
    }

    method Flush(fault: FileFault) returns (ok: bool)
      requires memory.Valid()
      modifies `file
      ensures (file, ok) == FlushFile(old(file), memory.Contents(), floats, fault)
    {
      if fault.OpenFails? {
        return false;
      }
      file := Some("");
      var slice := memory.GetBatch();
      var data := Marshal(slice.data[..slice.len], floats);
      if data.None? {
        return false;
      }
      if fault.WriteFails? {
        file := Some(if fault.kept < |data.value| then data.value[..fault.kept] else data.value);
        return false;
      }
      file := Some(data.value);
      return true;
    }

    method Restore(fault: ReadFault) returns (ok: bool)
      requires memory.Valid()
      modifies memory, memory.metrics
      ensures memory.Valid() && (memory.metrics == old(memory.metrics) || fresh(memory.metrics))
      ensures (memory.Contents(), ok) == RestoredFile(old(memory.Contents()), Readable(file, fault), floats)
    {
      var data := Readable(file, fault);
      if data.None? {
        return false;
      }
      var lines := ScanLines(data.value);
      var i := 0;
      while i < |lines|
        invariant 0 <= i <= |lines|
        invariant memory.Valid() && (memory.metrics == old(memory.metrics) || fresh(memory.metrics))
        invariant RestoredFile(old(memory.Contents()), data, floats)
                  == RestoredLines(memory.Contents(), lines[i..], floats)
      {
        var batch := Unmarshal(lines[i], floats);
        if batch.None? {
          return false;
        }
        memory.UpsertBatch(batch.value);
        i := i + 1;
      }
      return true;
    }
  }

  // ---- A crash anywhere in Flush ----

  /** Every content the file can have if the process dies between the start and the end of a Flush. */
  ghost predicate CrashImage(before: Option<string>, s: seq<Metric>, floats: FloatText, after: Option<string>) {
    || after == before
    || after == Some("")
    || (AllFinite(s) && exists n :: 0 <= n <= |Marshal(s, floats).value|
                                    && after == Some(Marshal(s, floats).value[..n]))
  }

  /** Whatever a flush reports, its result is one of those contents. */
  lemma FlushIsCrashImage(file: Option<string>, s: seq<Metric>, floats: FloatText, fault: FileFault)
    ensures CrashImage(file, s, floats, FlushFile(file, s, floats, fault).0)
  {
    if AllFinite(s) && !fault.OpenFails? {
      var text := Marshal(s, floats).value;
      assert text[..|text|] == text;
      var n := if fault.WriteFails? && fault.kept < |text| then fault.kept else |text|;
      assert FlushFile(file, s, floats, fault).0 == Some(text[..n]);
    }
  }

  /**
    * A line that ends within the limit is one token, whatever follows it. Its line end, a newline with or without
    * a carriage return, is no part of the token.
    */
  lemma FirstLineIsToken(line: string, rest: string)
    requires '\n' !in line && |line| < 65536
    ensures line == "" || line[|line| - 1] != '\r' ==> ScanLines(line + "\n" + rest) == [line] + ScanLines(rest)
    ensures |line| < 65535 ==> ScanLines(line + "\r\n" + rest) == [line] + ScanLines(rest)
  {
    LineThenRest(line, rest);
    if |line| < 65535 {
      ReturnThenRest(line, rest);
    }
  }

  lemma ReturnThenRest(line: string, rest: string)
    requires '\n' !in line && |line| < 65535
    ensures ScanLines(line + "\r\n" + rest) == [line] + ScanLines(rest)
  {
    var longer := line + "\r";
    assert line + "\r\n" + rest == longer + "\n" + rest;
    LineThenRest(longer, rest);
    assert longer[..|line|] == line;
  }

  lemma LineThenRest(line: string, rest: string)
    requires '\n' !in line && |line| < 65536
    ensures ScanLines(line + "\n" + rest) == [DropCR(line)] + ScanLines(rest)
  {
    var data := line + "\n" + rest;
    assert data[|line|] == '\n' && forall i :: 0 <= i < |line| ==> data[i] == line[i];
    assert LineEnd(data) == |line|;
    assert data[..|line|] == line && data[|line| + 1..] == rest;
  }

  /** A file of several lines is restored line by line, and no further than the first line that is no batch. */
  lemma RestoreLineByLine(into: seq<Metric>, line: string, rest: string, floats: FloatText)
    requires '\n' !in line && |line| < 65536 && (line == "" || line[|line| - 1] != '\r')
    ensures RestoredFile(into, Some(line + "\n" + rest), floats)
            == match Unmarshal(line, floats)
               case None => (into, false)
               case Some(ms) => RestoredFile(UpsertedAll(into, ms), Some(rest), floats)
  {
    FirstLineIsToken(line, rest);
    assert ([line] + ScanLines(rest))[1..] == ScanLines(rest);
  }

  /** A line of 65536 bytes ends the scan: nothing of it or behind it is restored, and no error is reported. */
  lemma LongLineEndsTheScan(into: seq<Metric>, line: string, rest: string, floats: FloatText)
    requires '\n' !in line && |line| >= 65536 && (rest == "" || rest[0] == '\n')
    ensures RestoredFile(into, Some(line + rest), floats) == (into, true)
  {
    var data := line + rest;
    assert forall i :: 0 <= i < |line| ==> data[i] == line[i];
    assert LineEnd(data) >= |line|;
  }

  /** Only a flush that cannot open the file leaves the old content; truncation comes before all else can fail. */
  lemma FlushFaults(file: Option<string>, other: Option<string>, s: seq<Metric>, floats: FloatText, fault: FileFault)
    ensures fault.OpenFails? ==> FlushFile(file, s, floats, fault) == (file, false)
    ensures !fault.OpenFails? ==> FlushFile(file, s, floats, fault) == FlushFile(other, s, floats, fault)
    ensures fault.WriteFails? && AllFinite(s) ==>
              var (after, ok) := FlushFile(file, s, floats, fault);
              !ok && after.Some? && after.value <= Marshal(s, floats).value
              && (fault.kept <= |Marshal(s, floats).value| ==> |after.value| == fault.kept)
  {
  }

  lemma {:induction false} NoNewlineOneToken(data: string)
    requires OneLine(data)
    ensures ScanLines(data) == if data == [] || |data| >= 65536 then [] else [data]
  {
  }

  /** What a cut of the text of a batch restores: nothing unless the text is whole and within the limit. */
  lemma RestoreOfCut(s: seq<Metric>, floats: FloatText, n: nat, into: seq<Metric>)
    requires JsonFloats(floats) && AllFinite(s) && n <= |Marshal(s, floats).value|
    ensures var text := Marshal(s, floats).value;
            RestoredFile(into, Some(text[..n]), floats)
            == if n == 0 || n >= 65536 then (into, true)
               else if n < |text| then (into, false)
               else (UpsertedAll(into, SaneMetrics(s)), true)
  {
    var text := Marshal(s, floats).value;
    var data := text[..n];
    MarshalOneLine(s, floats);
    NoNewlineOneToken(data);
    if n < |text| {
      UnmarshalOfPrefix(s, floats, n);
    } else {
      assert data == text;
      UnmarshalOfMarshal(s, floats);
      assert [data][1..] == [];
    }
    assert n < |text| ==> RestoredLines(into, [data], floats) == (into, false);
    assert n == |text| ==> RestoredLines(into, [data], floats) == (UpsertedAll(into, SaneMetrics(s)), true);
  }

  /**
    * A crash at any point of a flush is all or nothing: the file still is the old one, or it restores to
    * nothing, or it is the complete snapshot.
    */
  lemma CrashIsAllOrNothing(before: Option<string>, s: seq<Metric>, floats: FloatText, after: Option<string>)
    requires JsonFloats(floats) && CrashImage(before, s, floats, after)
    ensures after == before
            || RestoredFile([], after, floats).0 == []
            || (AllFinite(s) && after == Marshal(s, floats)
                && RestoredFile([], after, floats) == (UpsertedAll([], SaneMetrics(s)), true))
  {
    if after != before && after != Some("") {
      var text := Marshal(s, floats).value;
      var n :| 0 <= n <= |text| && after == Some(text[..n]);
      RestoreOfCut(s, floats, n, []);
      if n == |text| {
        assert text[..n] == text;
      }
    }
  }

  /** The store can be written, its strings survive, and its text fits one scanner token. */
  ghost predicate Restorable(s: seq<Metric>, floats: FloatText) {
    && AllFinite(s)
    && (forall i :: 0 <= i < |s| ==> ValidText(s[i]))
    && |Marshal(s, floats).value| < 65536
  }

  lemma UpsertedAllIsIdentityIff(s: seq<Metric>)
    requires UniqueKeys(s)
    ensures UpsertedAll([], SaneMetrics(s)) == s <==> SaneMetrics(s) == s
  {
    UpsertedAllFullGrowth([], SaneMetrics(s));
    assert [] + SaneMetrics(s) == SaneMetrics(s);
    if SaneMetrics(s) == s {
      UpsertedAllAppends([], s);
    }
  }

  /**
    * After a flush that met no I/O fault, restoring an empty store gives back the identical sequence,
    * order and hashes included, exactly when the store is restorable.
    */
  lemma FileRoundTripIff(file: Option<string>, s: seq<Metric>, floats: FloatText)
    requires JsonFloats(floats) && UniqueKeys(s)
    ensures RestoredFile([], FlushFile(file, s, floats, NoFault).0, floats).0 == s
            <==> Restorable(s, floats)
  {
    assert s == [] ==> Marshal(s, floats) == Some("[" + "" + "]");
    if AllFinite(s) {
      var text := Marshal(s, floats).value;
      assert text[..|text|] == text;
      RestoreOfCut(s, floats, |text|, []);
      MarshalOneLine(s, floats);
      SaneMetricsIdentityIff(s);
      UpsertedAllIsIdentityIff(s);
    }
  }

  /** Restoring the file of the live store into that store changes nothing. */
  lemma RestoreIntoLiveStore(file: Option<string>, s: seq<Metric>, floats: FloatText)
    requires JsonFloats(floats) && UniqueKeys(s) && Restorable(s, floats)
    ensures RestoredFile(s, FlushFile(file, s, floats, NoFault).0, floats) == (s, true)
  {
    var text := Marshal(s, floats).value;
    assert text[..|text|] == text;
    RestoreOfCut(s, floats, |text|, s);
    MarshalOneLine(s, floats);
    SaneMetricsIdentityIff(s);
    UpsertedAllStored(s, s);
  }

  /** A store whose text reaches the token limit is written, reported as restored, and not restored. */
  lemma LargeStoreIsLost(file: Option<string>, s: seq<Metric>, floats: FloatText)
    requires JsonFloats(floats) && AllFinite(s) && |Marshal(s, floats).value| >= 65536
    ensures FlushFile(file, s, floats, NoFault).1
    ensures RestoredFile([], FlushFile(file, s, floats, NoFault).0, floats) == ([], true)
  {
    var text := Marshal(s, floats).value;
    assert text[..|text|] == text;
    RestoreOfCut(s, floats, |text|, []);
  }

  /** The value of the metric is an infinity or not a number. */
  predicate Unwritable(m: Metric) { m.value.Some? && !IsFinite(m.value.value) }

  /** A flush that met no I/O fault leaves an empty file exactly when some gauge is infinite or not a number. */
  lemma FlushEmptiesIff(file: Option<string>, s: seq<Metric>, floats: FloatText)
    requires JsonFloats(floats)
    ensures FlushFile(file, s, floats, NoFault).1 <==> forall i :: 0 <= i < |s| ==> !Unwritable(s[i])
    ensures FlushFile(file, s, floats, NoFault).0 == Some("") <==> exists i :: 0 <= i < |s| && Unwritable(s[i])
    ensures AllFinite(s) <==> forall i :: 0 <= i < |s| ==> !Unwritable(s[i])
  {
    if AllFinite(s) {
      MarshalOneLine(s, floats);
    }
  }
}
