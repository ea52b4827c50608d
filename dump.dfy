/** The exported document: an introduction naming the project, the tree in
    a text block, then one section per readable collected file, each in a
    code block whose fence its own text cannot close, stopped after the
    file that pushes the output past the character limit, and closed by a
    statistics footer. */
module Dump {
  import opened Common
  import opened Ignore
  import opened FileSystem
  import opened Utils
  import opened Eol
  import opened Tree
  import opened Collect
  import opened Fence
  import opened Reader

  /** The settings of one export. `rootName` is the name of the resolved
      root directory, given independently of `root.name`: the root line of
      the tree and the introduction show `rootName`, while the denial line
      of a root whose listing is refused shows `root.name` (the unresolved
      path's name). A `maxOutputChars` of 0 means no limit. */
  datatype Config = Config(root: Node, rootName: string, includeHidden: bool, respectGitignore: bool,
                           ignoreDirs: seq<string>, maxFileBytes: int, maxOutputChars: int,
                           followSymlinks: bool)

  /** What the export depends on besides the walked tree: whether the
      gitignore pattern library is installed, the text of the root's
      `.gitignore` when there is one, the pattern compiler, and the codecs. */
  datatype Env = Env(pathspecAvailable: bool, gitignoreText: Option<string>,
                     compile: string -> Matcher, codecs: Codecs)

  /** The fixed text of the introduction after the project's name. */
  const IntroTail: string :=
    "**. Lis attentivement **tout ce qui suit** "
    + "\U{2014} arborescence et contenus de fichiers \U{2014} et prends cela en compte "
    + "pour r\U{e9}pondre.\n\n- R\U{e9}ponds toujours en fran\U{e7}ais.\n"

  /** The introduction, in French, naming the project. */
  function Intro(name: string): string
  {
    "Voici mon projet **" + name + IntroTail
  }

  /** Everything written before the first file section. */
  function Header(name: string, tree: string): string
  {
    Intro(name) + "# Section 1 - Tree\n\n" + "``` text\n" + tree + "\n```\n\n"
    + "# Section 2 - Files and contents\n\n"
  }

  /** The fence line that opens a section: the fence and, when the file has
      a language label, a space and the label. */
  function Opening(fence: string, lang: string): string
  {
    if lang != "" then fence + " " + lang + "\n" else fence + "\n"
  }

  /** The section of the file at `rel` whose text is `text`. The fence is
      chosen from the text as read; the body is its canonical form without
      trailing line feeds. */
  function Section(rel: string, lang: string, text: string): string
  {
    var fence := FenceFor(text);
    "## File: " + rel + "\n" + Opening(fence, lang) + RStripNewlines(Canonical(text))
    + "\n" + fence + "\n\n"
  }

  function Notice(max: int): string
  {
    "> Output truncated: --max-output-chars=" + IntToString(max) + " exceeded.\n\n"
  }

  function Footer(count: nat, total: nat): string
  {
    "---\n\n" + "Statistics: " + NatToString(count) + " files exported; total length ~= "
    + NatToString(total) + " characters.\n"
  }

  /** The section of a collected file, or `None` when it does not read as
      text and is skipped. */
  function SectionOf(f: Found, c: Codecs): (r: Option<string>)
    ensures r.Some? <==> ReadSpec(f.file, DefaultEncodings, DefaultProbeBytes, c).Some?
  {
    match ReadSpec(f.file, DefaultEncodings, DefaultProbeBytes, c)
    case None => None
    case Some(text) => Some(Section(f.rel, DetectLang(f.file.name), text))
  }

  /** The sections of the collected files, in collection order. */
  function Sections(files: seq<Found>, c: Codecs): (r: seq<Option<string>>)
    ensures |r| == |files|
  {
    seq(|files|, i requires 0 <= i < |files| => SectionOf(files[i], c))
  }

  /** The state of the export after the file loop: the text written, the
      number of sections, the recorded length, and whether the loop stopped
      at the limit. */
  datatype Emitted = Emitted(out: string, count: nat, total: nat, truncated: bool)

  /** The file loop over the sections `ss` (`None` for a skipped file),
      from the output `out` with `count` sections written and `total`
      recorded. After each section the length is recorded, and when a
      non-zero limit is exceeded the notice is written and the loop stops. */
  function Emit(ss: seq<Option<string>>, max: int, out: string, count: nat, total: nat): Emitted
    decreases |ss|
  {
    if ss == [] then Emitted(out, count, total, false)
    else
      match ss[0]
      case None => Emit(ss[1..], max, out, count, total)
      case Some(section) =>
        var out' := out + section;
        if max != 0 && |out'| > max then Emitted(out' + Notice(max), count + 1, |out'|, true)
        else Emit(ss[1..], max, out', count + 1, |out'|)
  }

  /** The gitignore matcher of a run: loaded only when asked for. */
  function GitignoreSpec(cfg: Config, env: Env): (r: Option<Matcher>)
    ensures !cfg.respectGitignore ==> r.None?
    ensures cfg.respectGitignore ==>
      r == LoadGitignore(env.pathspecAvailable, env.gitignoreText, env.compile)
  {
    if cfg.respectGitignore then LoadGitignore(env.pathspecAvailable, env.gitignoreText, env.compile)
    else None
  }

  /** The exclusion settings shared by the tree and the collector. */
  function RunPolicy(cfg: Config, env: Env): Policy
  {
    Policy(cfg.includeHidden, EffectiveIgnoreDirs(cfg.ignoreDirs), GitignoreSpec(cfg, env))
  }

  function TreeText(cfg: Config, env: Env): string
    requires cfg.root.Dir?
  {
    JoinWith(Texts(TreeLines(cfg.root, cfg.rootName, RunPolicy(cfg, env))), "\n")
  }

  function Files(cfg: Config, env: Env): seq<Found>
    requires cfg.root.Dir?
  {
    Collected(cfg.root, "", CollectOptions(RunPolicy(cfg, env), cfg.maxFileBytes, cfg.followSymlinks))
  }

  /** The file loop of an export, started right after the header. */
  function Body(cfg: Config, env: Env): Emitted
    requires cfg.root.Dir?
  {
    var head := Header(cfg.rootName, TreeText(cfg, env));
    Emit(Sections(Files(cfg, env), env.codecs), cfg.maxOutputChars, head, 0, |head|)
  }

  /** `dump_repository`: the whole document. */
  function Document(cfg: Config, env: Env): string
    requires cfg.root.Dir?
  {
    var e := Body(cfg, env);
    e.out + Footer(e.count, e.total)
  }

  /** The body of one turn of the file loop: read the file, skip it when it
      does not read as text, else label it, pick its fence and canonicalise
      its line breaks. */
  method FileSection(f: Found, c: Codecs) returns (section: Option<string>)
    ensures section == SectionOf(f, c)
  {
    var text := ReadTextSafely(f.file, DefaultEncodings, DefaultProbeBytes, c);
    if text.None? {
      return None;
    }
    var lang := DetectLang(f.file.name);
    var fence := PickFenceFor(text.value);
    var canonical := Canonical(text.value);
    return Some("## File: " + f.rel + "\n" + Opening(fence, lang) + RStripNewlines(canonical)
                + "\n" + fence + "\n\n");
  }

  /** One step of `Emit` on the remaining sections. */
  lemma EmitStep(ss: seq<Option<string>>, i: nat, max: int, out: string, count: nat, total: nat)
    requires i < |ss|
    ensures Emit(ss[i..], max, out, count, total) ==
      match ss[i]
      case None => Emit(ss[i + 1..], max, out, count, total)
      case Some(section) =>
        if max != 0 && |out + section| > max
        then Emitted(out + section + Notice(max), count + 1, |out + section|, true)
        else Emit(ss[i + 1..], max, out + section, count + 1, |out + section|)
  {
    assert ss[i..][0] == ss[i];
    assert ss[i..][1..] == ss[i + 1..];
  }

  /** The file loop of `dump_repository`. */
  method EmitFiles(files: seq<Found>, c: Codecs, max: int, head: string) returns (e: Emitted)
    ensures e == Emit(Sections(files, c), max, head, 0, |head|)
  {
    ghost var ss := Sections(files, c);
    var out := head;
    var count: nat := 0;
    var total: nat := |head|;
    var i := 0;
    while i < |files|
      invariant i <= |files|
      invariant Emit(ss[i..], max, out, count, total) == Emit(ss, max, head, 0, |head|)
    {
      EmitStep(ss, i, max, out, count, total);
      var section := FileSection(files[i], c);
      assert section == ss[i];
      i := i + 1;
      if section.None? {
        continue;
      }
      out := out + section.value;
      count := count + 1;
      total := |out|;
      if max != 0 && total > max {
        out := out + Notice(max);
        return Emitted(out, count, total, true);
      }
    }
    assert ss[i..] == [];
    return Emitted(out, count, total, false);
  }

  /** `dump_repository`: the tree, the header, the file loop and the footer. */
  method DumpRepository(cfg: Config, env: Env) returns (doc: string)
    requires cfg.root.Dir?
    ensures doc == Document(cfg, env)
  {
    var giSpec := GitignoreSpec(cfg, env);
    var ignoreDirs := EffectiveIgnoreDirs(cfg.ignoreDirs);
    var policy := Policy(cfg.includeHidden, ignoreDirs, giSpec);
    var treeText, _, _ := BuildTree(cfg.root, cfg.rootName, policy);
    var head := Header(cfg.rootName, treeText);
    var files := IterFiles(cfg.root, cfg.includeHidden, ignoreDirs, giSpec, cfg.maxFileBytes,
                           cfg.followSymlinks);
    var e := EmitFiles(files, env.codecs, cfg.maxOutputChars, head);
    doc := e.out + Footer(e.count, e.total);
  }
}
