/** Which writes through a share or link go through, told from the file name and the owner's workspace. */
module SharedWrites {
  import opened Wrappers
  import opened Text
  import opened Paths
  import opened FileTree
  import opened Workspace
  import opened Quota
  import opened Handlers
  import opened Shares

  // ---- Work files ----

  /** mdp, mds, mdg, mdn, mdl, mdc, mde, mdb or mdd, in letters of either case. */
  predicate OneOfNine(ext: string) {
    && |ext| == 3 && ext[0] in {'m', 'M'} && ext[1] in {'d', 'D'}
    && ext[2] in {'p', 's', 'g', 'n', 'l', 'c', 'e', 'b', 'd', 'P', 'S', 'G', 'N', 'L', 'C', 'E', 'B', 'D'}
  }

  /** Nothing, or the folders in front of a name, up to their last slash. */
  predicate IsFront(front: string) {
    front == "" || front[|front| - 1] == '/'
  }

  lemma BaseIs(front: string, name: string)
    requires IsFront(front) && '/' !in name
    ensures BasenameOf(front + name) == name
  {
    var rel := front + name;
    if front == "" {
      assert rel == name;
    } else {
      var last := |front| - 1;
      assert rel[last] == '/' && rel[last + 1..] == name;
      LastIndexAt(rel, '/', last);
    }
  }

  lemma ExtensionIs(front: string, stem: string, ext: string)
    requires IsFront(front) && stem != "" && '/' !in stem && '.' !in ext && '/' !in ext
    ensures ExtensionOf(front + (stem + "." + ext)) == ToLower(ext)
  {
    hide LastIndexOf, BasenameOf;
    var base := stem + "." + ext;
    BaseIs(front, base);
    assert base[|stem|] == '.' && base[|stem| + 1..] == ext;
    LastIndexAt(base, '.', |stem|);
  }

  lemma NineWords(ext: string)
    ensures ToLower(ext) in WORK_EXTENSIONS <==> OneOfNine(ext)
  {
    var low := ToLower(ext);
    if low in WORK_EXTENSIONS {
      assert |low| == 3 && low[0] == 'm' && low[1] == 'd' && low[2] in {'p', 's', 'g', 'n', 'l', 'c', 'e', 'b', 'd'};
    }
    if OneOfNine(ext) {
      assert low == ['m', 'd', ToLowerChar(ext[2])];
    }
  }

  /** With something before its last dot, a file is a work file exactly when what follows is one of the nine words. */
  lemma WorkFileByExtension(front: string, stem: string, ext: string)
    requires IsFront(front) && stem != "" && '/' !in stem && '.' !in ext && '/' !in ext
    ensures IsWorkFile(front + (stem + "." + ext)) <==> OneOfNine(ext)
  {
    ExtensionIs(front, stem, ext);
    NineWords(ext);
  }

  /** A name without a dot, or with none but a leading one, is not. */
  lemma NoExtensionNoWorkFile(front: string, name: string)
    requires IsFront(front) && '/' !in name && (name != "" ==> '.' !in name[1..])
    ensures !IsWorkFile(front + name)
  {
    hide LastIndexOf, BasenameOf;
    BaseIs(front, name);
    if name != "" && name[0] == '.' {
      LastIndexAt(name, '.', 0);
    } else {
      assert name != "" ==> name == [name[0]] + name[1..];
      assert '.' !in name;
    }
    assert ExtensionOf(front + name) == "";
  }

  /** The two together, over all paths. */
  ghost predicate NamesAWorkFile(rel: string) {
    exists front: string, stem: string, ext: string ::
      rel == front + (stem + "." + ext) && IsFront(front) && stem != "" && '/' !in stem && OneOfNine(ext)
  }

  lemma WorkFileIff(rel: string)
    ensures IsWorkFile(rel) <==> NamesAWorkFile(rel)
  {
    hide IsWorkFile, OneOfNine;
    if NamesAWorkFile(rel) {
      var front: string, stem: string, ext: string :|
        rel == front + (stem + "." + ext) && IsFront(front) && stem != "" && '/' !in stem && OneOfNine(ext);
      PlainExtension(ext);
      WorkFileByExtension(front, stem, ext);
    }
    var front, base := CutFront(rel);
    if base != "" && '.' in base[1..] {
      var stem, ext := CutExtension(base);
      WorkFileByExtension(front, stem, ext);
    } else {
      NoExtensionNoWorkFile(front, base);
    }
  }

  lemma PlainExtension(ext: string)
    requires OneOfNine(ext)
    ensures '.' !in ext && '/' !in ext
  {
  }

  lemma CutFront(rel: string) returns (front: string, base: string)
    ensures rel == front + base && IsFront(front) && '/' !in base
  {
    var slash := LastIndexOf(rel, '/');
    var cut := if slash.None? then 0 else slash.value + 1;
    front, base := rel[..cut], rel[cut..];
  }

  lemma CutExtension(base: string) returns (stem: string, ext: string)
    requires base != "" && '.' in base[1..] && '/' !in base
    ensures base == stem + "." + ext && stem != "" && '/' !in stem && '/' !in ext && '.' !in ext
  {
    var dot := LastIndexOf(base, '.');
    assert dot.value > 0;
    stem, ext := base[..dot.value], base[dot.value + 1..];
  }

  // ---- The write ----

  /** What a write through a share or link replies, and what it then changes in the owner's workspace. */
  lemma SharedWriteMeans(c: Config, a: Account, access: Access, size: nat)
    requires Canonical(access.relPath)
    ensures var (b, r) := WrittenThrough(c, a, access, size);
            var p := Segments(access.relPath);
            if access.permission != Edit then r == Err(Forbidden) && b == a
            else if !NamesAWorkFile(access.relPath) then r == Err(BadInput) && b == a
            else if FileAt(a.tree, p).None? then r == Err(Missing) && b == a
            else if QuotaRefuses(c, a.tree, p, size) then r == Err(BadInput) && b == a
            else r == Ok([access.relPath]) && JustWritten(a.tree, b.tree, p, size) && b.deleted == a.deleted
  {
    hide IsWorkFile, NamesAWorkFile, QuotaRefuses, AfterOverwrite;
    WorkFileIff(access.relPath);
    OverwriteMeans(c, a, access.relPath, size);
  }

  /** It goes through exactly at the edit level, onto a work file that is there, when the file fits or does not grow. */
  lemma SharedWriteIsAcceptedIff(c: Config, a: Account, access: Access, size: nat)
    requires Canonical(access.relPath) && Total(a.tree) + size < 0x1_0000_0000_0000_0000
    ensures var there := FileAt(a.tree, Segments(access.relPath));
            && (there.Some? ==> there.value <= Total(a.tree))
            && (WrittenThrough(c, a, access, size).1 == Ok([access.relPath]) <==>
                  && access.permission == Edit && NamesAWorkFile(access.relPath) && there.Some?
                  && (c.quota == 0 || size <= there.value || Total(a.tree) - there.value + size <= c.quota))
  {
    hide IsWorkFile, NamesAWorkFile, QuotaRefuses, AfterOverwrite;
    WorkFileIff(access.relPath);
    OverwriteMeans(c, a, access.relPath, size);
    OverwriteIsAcceptedIff(c, a, access.relPath, size);
  }
}
