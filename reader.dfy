/** Reading a file as text: a binary probe on the head of the file, then a
    strict decoding with each candidate encoding in turn, then a replacing
    UTF-8 decoding as the last resort. Files are opened in universal-newline
    mode, so every "\r\n" and every lone "\r" of the decoded text reads as
    "\n". */
module Reader {
  import opened Common
  import opened Utils
  import opened Eol
  import opened FileSystem

  datatype Encoding = Utf8 | Utf16 | Latin1

  /** The encodings tried by default, in order. */
  const DefaultEncodings: seq<Encoding> := [Utf8, Utf16, Latin1]

  /** How many bytes the binary probe looks at by default. */
  const DefaultProbeBytes: int := 8192

  /** The codecs: `strict(e, data)` is the text of `data` in encoding `e`,
      or `None` where strict decoding raises a decoding error; `lossy(data)`
      is UTF-8 decoding with undecodable bytes replaced. */
  datatype Codecs = Codecs(strict: (Encoding, seq<byte>) -> Option<string>, lossy: seq<byte> -> string)

  /** `fh.read(n)` on a binary file: everything when `n` is negative, else
      the first `n` bytes (or fewer at the end of the file). */
  function Head(data: seq<byte>, n: int): (r: seq<byte>)
    ensures r <= data
    ensures n < 0 ==> r == data
    ensures n >= 0 ==> |r| == (if n < |data| then n else |data|)
  {
    if n < 0 || n >= |data| then data else data[..n]
  }

  /** Universal-newline translation on input: "\r\n" and lone "\r" become
      "\n". */
  function Universal(s: string): (r: string)
    ensures '\r' !in r
    decreases |s|
  {
    if s == [] then []
    else if s[0] == '\r' then "\n" + Universal(s[if |s| >= 2 && s[1] == '\n' then 2 else 1..])
    else [s[0]] + Universal(s[1..])
  }

  /** The text of the first encoding of `encs` that decodes `data` strictly. */
  function FirstDecoded(encs: seq<Encoding>, data: seq<byte>, c: Codecs): (r: Option<string>)
    ensures r.Some? ==> exists i :: 0 <= i < |encs| && c.strict(encs[i], data) == r
    ensures r.None? ==> forall i :: 0 <= i < |encs| ==> c.strict(encs[i], data).None?
  {
    if encs == [] then None
    else
      match c.strict(encs[0], data)
      case Some(t) => Some(t)
      case None =>
        var r := FirstDecoded(encs[1..], data, c);
        assert forall i :: 0 < i < |encs| ==> encs[i] == encs[1..][i - 1];
        r
  }

  /** What `read_text_safely` returns for entry `f`. Opening fails for an
      entry that cannot be opened, and for a directory. */
  function ReadSpec(f: Node, encs: seq<Encoding>, probeBytes: int, c: Codecs): Option<string>
  {
    if f.Dir? || f.readFails then None
    else if IsProbablyBinary(Head(f.data, probeBytes)) then None
    else
      match FirstDecoded(encs, f.data, c)
      case Some(t) => Some(Universal(t))
      case None => Some(Universal(c.lossy(f.data)))
  }

  /** `read_text_safely`: the probe, then one attempt per encoding, then the
      replacing decoder. */
  method ReadTextSafely(f: Node, encs: seq<Encoding>, probeBytes: int, c: Codecs)
    returns (text: Option<string>)
    ensures text == ReadSpec(f, encs, probeBytes, c)
  {
    if f.Dir? || f.readFails {
      return None;
    }
    var head := Head(f.data, probeBytes);
    if IsProbablyBinary(head) {
      return None;
    }
    var i := 0;
    while i < |encs|
      invariant i <= |encs|
      invariant FirstDecoded(encs[i..], f.data, c) == FirstDecoded(encs, f.data, c)
    {
      assert encs[i..][1..] == encs[i + 1..];
      var decoded := c.strict(encs[i], f.data);
      if decoded.Some? {
        return Some(Universal(decoded.value));
      }
      i := i + 1;
    }
    return Some(Universal(c.lossy(f.data)));
  }

  /** Reading fails exactly when the entry cannot be opened or its head looks
      binary; otherwise the text is the first strict decoding that succeeds,
      and the replacing decoder is used only when all of them fail. */
  lemma ReadOutcome(f: Node, encs: seq<Encoding>, probeBytes: int, c: Codecs)
    ensures ReadSpec(f, encs, probeBytes, c).None? <==>
      f.Dir? || f.readFails || IsProbablyBinary(Head(f.data, probeBytes))
    ensures f.File? && !f.readFails && !IsProbablyBinary(Head(f.data, probeBytes)) ==>
      forall i :: (0 <= i < |encs| && c.strict(encs[i], f.data).Some?
                   && forall j :: 0 <= j < i ==> c.strict(encs[j], f.data).None?) ==>
        ReadSpec(f, encs, probeBytes, c) == Some(Universal(c.strict(encs[i], f.data).value))
    ensures f.File? && !f.readFails && !IsProbablyBinary(Head(f.data, probeBytes)) ==>
      ((forall i :: 0 <= i < |encs| ==> c.strict(encs[i], f.data).None?) ==>
       ReadSpec(f, encs, probeBytes, c) == Some(Universal(c.lossy(f.data))))
  {
    if f.File? {
      forall i | 0 <= i < |encs| && c.strict(encs[i], f.data).Some?
        && (forall j :: 0 <= j < i ==> c.strict(encs[j], f.data).None?)
        ensures FirstDecoded(encs, f.data, c) == c.strict(encs[i], f.data)
      {
        FirstDecodedAt(encs, f.data, c, i);
      }
    }
  }

  lemma {:induction false} FirstDecodedAt(encs: seq<Encoding>, data: seq<byte>, c: Codecs, i: nat)
    requires i < |encs| && c.strict(encs[i], data).Some?
    requires forall j :: 0 <= j < i ==> c.strict(encs[j], data).None?
    ensures FirstDecoded(encs, data, c) == c.strict(encs[i], data)
  {
    if i > 0 {
      assert encs[1..][i - 1] == encs[i];
      forall j | 0 <= j < i - 1 ensures c.strict(encs[1..][j], data).None? {
        assert encs[1..][j] == encs[j + 1];
      }
      FirstDecodedAt(encs[1..], data, c, i - 1);
    }
  }

  /** A NUL byte in the probed head makes the file unreadable as text. */
  lemma NulInHeadIsUnreadable(f: Node, encs: seq<Encoding>, probeBytes: int, c: Codecs)
    requires f.File? && 0 in Head(f.data, probeBytes)
    ensures ReadSpec(f, encs, probeBytes, c).None?
  {
    NulIsBinary(Head(f.data, probeBytes));
  }

  /** An empty file reads as the empty text when the first encoding decodes
      it to the empty text. */
  lemma EmptyFileReadsEmpty(f: Node, encs: seq<Encoding>, probeBytes: int, c: Codecs)
    requires f.File? && !f.readFails && f.data == [] && encs != [] && c.strict(encs[0], []) == Some("")
    ensures ReadSpec(f, encs, probeBytes, c) == Some("")
  {
    EmptyIsNotBinary();
  }

  /** With the default encodings, when Latin-1 decodes everything (as a
      one-byte-per-character codec does) the replacing decoder is never
      reached: every entry that opens and passes the probe is read
      strictly. */
  lemma Latin1MakesLossyUnreachable(f: Node, c: Codecs)
    requires forall data :: c.strict(Latin1, data).Some?
    requires f.File? && !f.readFails && !IsProbablyBinary(Head(f.data, DefaultProbeBytes))
    ensures FirstDecoded(DefaultEncodings, f.data, c).Some?
    ensures ReadSpec(f, DefaultEncodings, DefaultProbeBytes, c)
      == Some(Universal(FirstDecoded(DefaultEncodings, f.data, c).value))
  {
    assert DefaultEncodings[2] == Latin1;
  }

  /** Text without a carriage return is left as it is by the translation. */
  lemma {:induction false} UniversalKeepsLfText(s: string)
    requires '\r' !in s
    ensures Universal(s) == s
    decreases |s|
  {
    if s != [] {
      assert '\r' !in s[1..] by {
        forall k | 0 <= k < |s[1..]| ensures s[1..][k] != '\r' {
          assert s[1..][k] == s[k + 1];
        }
      }
      UniversalKeepsLfText(s[1..]);
      assert s == [s[0]] + s[1..];
    }
  }

  /** Text read from a file is already canonical: the section's re-split of
      its line breaks changes nothing. */
  lemma ReadTextIsCanonical(f: Node, encs: seq<Encoding>, probeBytes: int, c: Codecs)
    requires ReadSpec(f, encs, probeBytes, c).Some?
    ensures '\r' !in ReadSpec(f, encs, probeBytes, c).value
    ensures Canonical(ReadSpec(f, encs, probeBytes, c).value) == ReadSpec(f, encs, probeBytes, c).value
  {
    CanonicalKeepsLfText(ReadSpec(f, encs, probeBytes, c).value);
  }

  /** The one place where the two break rules differ: "\n\r" is a single
      break for the section's re-split but two for universal newlines, so
      the re-split's "\n\r" alternative never applies to text read from a
      file. */
  lemma LfCrIsTwoBreaksWhenRead()
    ensures Universal("\n\r") == "\n\n"
    ensures Canonical("\n\r") == "\n"
  {
    assert "\n\r"[1..] == "\r";
    assert Universal("\r") == "\n" + Universal("");
    RejoinUnfold("\n\r", "\n");
    RejoinUnfold("", "\n");
  }
}
