/** Byte and path classification: binary extensions, the binary-content
    probe, and language labels for fenced blocks. File names are plain
    strings (the last path component). */
module Utils {
  import opened Common
  import opened PathNames

  function BinaryExts(): set<string>
  {
    {
    ".png", ".jpg", ".jpeg", ".gif", ".bmp", ".webp", ".ico", ".pdf", ".zip",
    ".gz", ".tgz", ".xz", ".7z", ".rar", ".jar", ".war", ".class", ".o", ".so",
    ".dll", ".dylib", ".exe", ".bin", ".dat", ".lock", ".ttf", ".otf", ".woff",
    ".woff2", ".mp3", ".flac", ".wav", ".mp4", ".mkv", ".mov", ".avi", ".heic"
    }
  }

  /** Language labels, keyed by lower-case suffix or by exact file name. */
  function LangByExt(): map<string, string>
  {
    map[
    ".py" := "python", ".js" := "javascript", ".ts" := "typescript",
    ".tsx" := "tsx", ".jsx" := "jsx", ".json" := "json", ".yml" := "yaml",
    ".yaml" := "yaml", ".toml" := "toml", ".ini" := "ini", ".cfg" := "ini",
    ".env" := "", ".md" := "markdown", ".rst" := "rst", ".sql" := "sql",
    ".html" := "html", ".htm" := "html", ".css" := "css", ".scss" := "scss",
    ".less" := "less", ".go" := "go", ".java" := "java", ".kt" := "kotlin",
    ".rs" := "rust", ".c" := "c", ".h" := "c", ".hpp" := "cpp", ".hh" := "cpp",
    ".cpp" := "cpp", ".cc" := "cpp", ".m" := "objectivec", ".mm" := "objectivec",
    ".swift" := "swift", ".sh" := "bash", ".bash" := "bash", ".zsh" := "zsh",
    ".ps1" := "powershell", ".dockerfile" := "dockerfile",
    "Dockerfile" := "dockerfile", ".makefile" := "make", "Makefile" := "make"
    ]
  }

  /** Every key of the label table is a suffix, except two file names. */
  lemma LangKeysShape()
    ensures forall k :: k in LangByExt() ==>
      (|k| > 0 && k[0] == '.') || k == "Dockerfile" || k == "Makefile"
  {
  }

  /** `is_binary_path`: the lower-cased suffix is a known binary extension. */
  predicate IsBinaryPath(name: string)
  {
    Lower(Suffix(name)) in BinaryExts()
  }

  /** The extension test ignores letter case in the whole name. */
  lemma BinaryPathCaseInsensitive(name: string)
    ensures IsBinaryPath(Lower(name)) == IsBinaryPath(name)
  {
    SuffixLower(name);
    LowerIdempotent(Suffix(name));
  }

  /** A name whose last component after a non-leading dot is a binary
      extension, written in any letter case, is binary. */
  lemma BinaryPathBySuffix(stem: string, ext: string)
    requires |stem| > 0 && '.' !in ext && |ext| > 0
    requires "." + Lower(ext) in BinaryExts()
    ensures IsBinaryPath(stem + "." + ext)
  {
    LowerSuffixOf(stem, ext);
  }

  /** Lower-casing leaves a leading dot in place. */
  lemma LowerDotted(ext: string)
    ensures Lower("." + ext) == "." + Lower(ext)
  {
    assert ("." + ext)[1..] == ext;
  }

  /** The bytes counted as text by the probe: bell, backspace, tab, line
      feed, form feed, carriage return, escape and printable ASCII. */
  predicate IsTextByte(b: byte)
  {
    b == 7 || b == 8 || b == 9 || b == 10 || b == 12 || b == 13 || b == 27
    || (32 <= b <= 126)
  }

  function NonTextCount(chunk: seq<byte>): (n: nat)
    ensures n <= |chunk|
  {
    if chunk == [] then 0
    else (if IsTextByte(chunk[0]) then 0 else 1) + NonTextCount(chunk[1..])
  }

  lemma {:induction false} NonTextCountAppend(a: seq<byte>, b: seq<byte>)
    ensures NonTextCount(a + b) == NonTextCount(a) + NonTextCount(b)
  {
    if a == [] {
      assert a + b == b;
    } else {
      assert (a + b)[0] == a[0];
      assert (a + b)[1..] == a[1..] + b;
      NonTextCountAppend(a[1..], b);
    }
  }

  /** `is_probably_binary`: a NUL byte, or non-text bytes making up more than
      30% of the chunk. The ratio `nontext / max(1, len) > 0.30` is written
      as the integer comparison `10 * nontext > 3 * max(1, len)`. */
  predicate IsProbablyBinary(chunk: seq<byte>)
  {
    0 in chunk || 10 * NonTextCount(chunk) > 3 * (if |chunk| < 1 then 1 else |chunk|)
  }

  lemma NulIsBinary(chunk: seq<byte>)
    requires 0 in chunk
    ensures IsProbablyBinary(chunk)
  {
  }

  lemma EmptyIsNotBinary()
    ensures !IsProbablyBinary([])
  {
  }

  lemma {:induction false} AllTextCountsZero(chunk: seq<byte>)
    requires forall i :: 0 <= i < |chunk| ==> IsTextByte(chunk[i])
    ensures NonTextCount(chunk) == 0
  {
    if chunk != [] {
      AllTextCountsZero(chunk[1..]);
    }
  }

  /** A chunk of text bytes only is never binary (a text byte is never 0). */
  lemma AllTextIsNotBinary(chunk: seq<byte>)
    requires forall i :: 0 <= i < |chunk| ==> IsTextByte(chunk[i])
    ensures !IsProbablyBinary(chunk)
  {
    AllTextCountsZero(chunk);
  }

  lemma {:induction false} AllNonTextCountsAll(chunk: seq<byte>)
    requires forall i :: 0 <= i < |chunk| ==> !IsTextByte(chunk[i])
    ensures NonTextCount(chunk) == |chunk|
  {
    if chunk != [] {
      AllNonTextCountsAll(chunk[1..]);
    }
  }

  /** Without a NUL byte the verdict is exactly the strict 30% threshold,
      at every length: a chunk of `|text|` text bytes and `|other|` non-text
      bytes is binary iff `|other| / max(1, length) > 0.30`. */
  lemma ThresholdExact(text: seq<byte>, other: seq<byte>)
    requires forall i :: 0 <= i < |text| ==> IsTextByte(text[i])
    requires forall i :: 0 <= i < |other| ==> !IsTextByte(other[i]) && other[i] != 0
    ensures IsProbablyBinary(text + other) <==>
      10 * |other| > 3 * (if |text| + |other| < 1 then 1 else |text| + |other|)
  {
    AllTextCountsZero(text);
    AllNonTextCountsAll(other);
    NonTextCountAppend(text, other);
    assert 0 !in text + other by {
      forall i | 0 <= i < |text + other| ensures (text + other)[i] != 0 {
        if i < |text| { assert (text + other)[i] == text[i]; }
        else { assert (text + other)[i] == other[i - |text|]; }
      }
    }
  }

  /** A name made of a non-empty stem, a dot and a dot-free extension is
      labelled by its extension, in any letter case, or gets no label when
      the lower-cased extension is not in the table, unless the whole name
      is one of the table's exact names, which are tried first. */
  lemma DetectLangBySuffix(stem: string, ext: string)
    requires |stem| > 0 && '.' !in ext && |ext| > 0
    requires stem + "." + ext !in LangByExt()
    ensures DetectLang(stem + "." + ext) ==
      (if "." + Lower(ext) in LangByExt() then LangByExt()["." + Lower(ext)] else "")
  {
    LowerSuffixOf(stem, ext);
    LabelOfSuffix(stem + "." + ext, "." + Lower(ext));
  }

  /** The lower-cased suffix of a stem, a dot and a dot-free extension is
      the dot and the lower-cased extension. */
  lemma LowerSuffixOf(stem: string, ext: string)
    requires |stem| > 0 && '.' !in ext && |ext| > 0
    ensures Lower(Suffix(stem + "." + ext)) == "." + Lower(ext)
  {
    var dotted := "." + ext;
    assert dotted[1..] == ext;
    assert stem + "." + ext == stem + dotted;
    SuffixOfStemExt(stem, dotted);
    LowerDotted(ext);
  }

  /** A name that is not an exact key is labelled by its lower-cased suffix. */
  lemma LabelOfSuffix(name: string, key: string)
    requires name !in LangByExt() && Lower(Suffix(name)) == key
    ensures DetectLang(name) == (if key in LangByExt() then LangByExt()[key] else "")
  {
  }

  /** `detect_lang`: an exact (case-sensitive) file-name match first, then
      the lower-cased suffix, otherwise no label. */
  function DetectLang(name: string): (r: string)
    ensures name in LangByExt() ==> r == LangByExt()[name]
    ensures name !in LangByExt() ==>
      r == (if Lower(Suffix(name)) in LangByExt() then LangByExt()[Lower(Suffix(name))] else "")
  {
    if name in LangByExt() then LangByExt()[name]
    else if Lower(Suffix(name)) in LangByExt() then LangByExt()[Lower(Suffix(name))]
    else ""
  }

  /** A name without a dot that is not one of the two special file names
      gets no label. */
  lemma NoDotNoLabel(name: string)
    requires '.' !in name && name != "Dockerfile" && name != "Makefile"
    ensures DetectLang(name) == ""
  {
    LangKeysShape();
    assert name !in LangByExt() by {
      assert name == [] || name[0] != '.';
    }
    SuffixNoDot(name);
    assert "" !in LangByExt();
  }

  /** The two extension-less names are recognised exactly, and only in
      that spelling. */
  lemma WellKnownNames()
    ensures DetectLang("Dockerfile") == "dockerfile"
    ensures DetectLang("Makefile") == "make"
    ensures DetectLang("makefile") == "" && DetectLang("DOCKERFILE") == ""
  {
    assert "makefile"[0] != "Makefile"[0];
    assert "DOCKERFILE"[1] != "Dockerfile"[1];
    NoDotNoLabel("makefile");
    NoDotNoLabel("DOCKERFILE");
  }

  lemma EnvExtShape(ext: string)
    requires |ext| == 4 && Lower(ext) == ".env"
    ensures ext[0] == '.' && '.' !in ext[1..] && ext[3] != 'e'
  {
    LowerAt(ext);
    assert LowerChar(ext[0]) == '.';
    assert LowerChar(ext[3]) == 'v';
    forall i | 1 <= i < 4 ensures ext[i] != '.' {
      assert LowerChar(ext[i]) == ".env"[i];
    }
  }

  /** The only table key whose last character is a `v`, in either case,
      is `.env`. */
  lemma KeysEndingV()
    ensures forall k :: k in LangByExt() ==>
      |k| > 0 && (k == ".env" || (k[|k| - 1] != 'v' && k[|k| - 1] != 'V'))
  {
  }

  /** Files ending in `.env`, in any letter case, get no label, whatever
      the stem, hidden stems such as `.local` included. */
  lemma EnvFilesHaveNoLabel(stem: string, ext: string)
    requires |stem| > 0
    requires |ext| == 4 && Lower(ext) == ".env"
    ensures DetectLang(stem + ext) == ""
  {
    var name := stem + ext;
    EnvExtShape(ext);
    SuffixOfStemExt(stem, ext);
    assert Lower(Suffix(name)) == ".env";
    assert name !in LangByExt() by {
      KeysEndingV();
      LowerAt(ext);
      assert LowerChar(ext[3]) == 'v';
      assert name[|name| - 1] == ext[3];
      assert |name| > 4;
    }
    EnvNameHasNoLabel();
  }

  /** A file named `.env` matches its table entry exactly, and that entry
      is the empty label. */
  lemma EnvNameHasNoLabel()
    ensures DetectLang(".env") == ""
  {
  }
}
