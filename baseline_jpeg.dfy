/** `convert_epub_images`: every image of an EPUB archive is re-encoded as a baseline
    JPEG, PNG/GIF/WebP/BMP images are renamed to .jpg, and the references in the content
    files and the package document follow the rename. The archive is its sequence of
    (name, data) entries; the image conversion and the OPF media-type fix are given
    functions. */
module BaselineJpeg {
  import opened Wrappers
  import opened Bytes
  import opened Text
  import Utf8

  /** An entry of the input archive. */
  datatype ZipEntry = ZipEntry(name: string, data: seq<byte>)

  /** An entry as written to the output archive: stored means ZIP_STORED, otherwise
      ZIP_DEFLATED. */
  datatype Written = Written(name: string, data: seq<byte>, stored: bool)

  /** The entry the EPUB container wants first and uncompressed. */
  const MIMETYPE: string := "mimetype"

  /** Lowercased names that are renamed to .jpg. */
  predicate RenamedExt(lower: string)
  {
    EndsWith(lower, ".png") || EndsWith(lower, ".gif") || EndsWith(lower, ".webp") || EndsWith(lower, ".bmp")
  }

  /** Lowercased names of images, converted in place or renamed. */
  predicate ImageExt(lower: string)
  {
    EndsWith(lower, ".jpg") || EndsWith(lower, ".jpeg") || RenamedExt(lower)
  }

  /** Lowercased names of content files whose references are rewritten. */
  predicate ContentExt(lower: string)
  {
    EndsWith(lower, ".xhtml") || EndsWith(lower, ".html") || EndsWith(lower, ".htm")
    || EndsWith(lower, ".css") || EndsWith(lower, ".ncx")
  }

  predicate Renamable(name: string) { RenamedExt(Lower(name)) }
  predicate IsImage(name: string) { ImageExt(Lower(name)) }
  predicate IsContent(name: string) { ContentExt(Lower(name)) }
  predicate IsOpf(name: string) { EndsWith(Lower(name), ".opf") }

  /** `output_path` defaults to the input path. */
  function OutputPath(epubPath: string, outputPath: Option<string>): (r: string)
    ensures outputPath.None? ==> r == epubPath
    ensures outputPath.Some? ==> r == outputPath.value
  {
    if outputPath.None? then epubPath else outputPath.value
  }

  /** The i-th of the last |ext| characters of a string that ends with ext. */
  lemma SuffixChar(s: string, ext: string, i: nat)
    requires EndsWith(s, ext) && i < |ext|
    ensures s[|s| - |ext| + i] == ext[i]
  {
    assert s[|s| - |ext|..][i] == ext[i];
  }

  /** The dot of a PNG/GIF/WebP/BMP extension, within the lowercased name. */
  lemma RenamedDot(lower: string) returns (k: nat)
    requires RenamedExt(lower)
    ensures k < |lower| && lower[k] == '.'
  {
    if EndsWith(lower, ".webp") {
      SuffixChar(lower, ".webp", 0);
      k := |lower| - 5;
    } else if EndsWith(lower, ".png") {
      SuffixChar(lower, ".png", 0);
      k := |lower| - 4;
    } else if EndsWith(lower, ".gif") {
      SuffixChar(lower, ".gif", 0);
      k := |lower| - 4;
    } else {
      SuffixChar(lower, ".bmp", 0);
      k := |lower| - 4;
    }
  }

  /** A renamed name has a dot to cut at. */
  lemma RenamableHasDot(name: string)
    requires Renamable(name)
    ensures '.' in name
  {
    var k := RenamedDot(Lower(name));
    assert LowerChar(name[k]) == '.';
    assert name[k] == '.';
  }

  /** `name.rsplit('.', 1)[0] + '.jpg'`. */
  function JpgName(name: string): (r: string)
    requires Renamable(name)
    ensures EndsWith(r, ".jpg")
    ensures exists k :: (0 <= k < |name| && name[k] == '.' && '.' !in name[k + 1..] && r == name[..k] + ".jpg")
  {
    RenamableHasDot(name);
    var b := BeforeLastDot(name);
    assert name[..|b|] == b;
    var r := b + ".jpg";
    assert r[|r| - 4..] == ".jpg";
    r
  }

  /** A string whose character at offset i of the last |ext| differs from ext's does not
      end with ext. */
  lemma NotSuffixAt(s: string, ext: string, i: nat)
    requires i < |ext| && (|ext| <= |s| ==> s[|s| - |ext| + i] != ext[i])
    ensures !EndsWith(s, ext)
  {
    if |ext| <= |s| {
      assert s[|s| - |ext|..][i] != ext[i];
    }
  }

  /** No string ends with both ".jpg"/".jpeg" and one of the renamed extensions. */
  lemma JpegExtNotRenamed(lower: string)
    requires EndsWith(lower, ".jpg") || EndsWith(lower, ".jpeg")
    ensures !RenamedExt(lower)
  {
    if EndsWith(lower, ".jpg") {
      SuffixChar(lower, ".jpg", 1);
      SuffixChar(lower, ".jpg", 3);
      NotSuffixAt(lower, ".png", 1);
      NotSuffixAt(lower, ".gif", 3);
      NotSuffixAt(lower, ".webp", 4);
      NotSuffixAt(lower, ".bmp", 3);
    } else {
      SuffixChar(lower, ".jpeg", 3);
      SuffixChar(lower, ".jpeg", 4);
      NotSuffixAt(lower, ".png", 2);
      NotSuffixAt(lower, ".gif", 3);
      NotSuffixAt(lower, ".webp", 4);
      NotSuffixAt(lower, ".bmp", 3);
    }
  }

  /** Images already called .jpg or .jpeg are re-encoded under their own name, never renamed. */
  lemma JpegNeverRenamed(name: string)
    requires EndsWith(Lower(name), ".jpg") || EndsWith(Lower(name), ".jpeg")
    ensures !Renamable(name)
  {
    JpegExtNotRenamed(Lower(name));
  }

  // ---------------------------------------------------------------------------------------
  // The rename map

  /** `renamed_files`, in its insertion order: a dict keeps the first insertion's place, and
      a name seen again maps to the same new name. */
  type RenameMap = seq<(string, string)>

  /** `renamed_files[name]` when `name in renamed_files`. */
  function Lookup(m: RenameMap, name: string): (r: Option<string>)
    ensures r.None? <==> forall k :: 0 <= k < |m| ==> m[k].0 != name
    ensures r.Some? ==> exists k :: 0 <= k < |m| && m[k] == (name, r.value)
  {
    if m == [] then None
    else if m[0].0 == name then Some(m[0].1)
    else
      var r := Lookup(m[1..], name);
      assert forall k :: 1 <= k < |m| ==> m[1..][k - 1] == m[k];
      r
  }

  /** The first pass over the archive's entries. */
  function RenamePlan(entries: seq<ZipEntry>): RenameMap
  {
    if entries == [] then []
    else
      var m := RenamePlan(entries[..|entries| - 1]);
      var name := entries[|entries| - 1].name;
      if Renamable(name) && Lookup(m, name).None? then m + [(name, JpgName(name))] else m
  }

  lemma RenamePlanSnoc(entries: seq<ZipEntry>, i: nat)
    requires i < |entries|
    ensures var m := RenamePlan(entries[..i]);
      var name := entries[i].name;
      RenamePlan(entries[..i + 1]) == if Renamable(name) && Lookup(m, name).None? then m + [(name, JpgName(name))] else m
  {
    assert entries[..i + 1][..i] == entries[..i];
  }

  /** Some entry of the archive has this name. */
  predicate NameIn(entries: seq<ZipEntry>, name: string)
  {
    exists i :: 0 <= i < |entries| && entries[i].name == name
  }

  lemma NameInSnoc(entries: seq<ZipEntry>, name: string)
    requires entries != []
    ensures NameIn(entries, name) <==> NameIn(entries[..|entries| - 1], name) || entries[|entries| - 1].name == name
  {
    var init := entries[..|entries| - 1];
    if NameIn(entries, name) {
      var i :| 0 <= i < |entries| && entries[i].name == name;
      if i < |init| {
        assert init[i].name == name;
      }
    }
    if NameIn(init, name) {
      var i :| 0 <= i < |init| && init[i].name == name;
      assert entries[i].name == name;
    }
  }

  /** A pair added at the end is found only for a key not found before. */
  lemma {:induction false} LookupSnoc(m: RenameMap, key: string, value: string, name: string)
    ensures Lookup(m + [(key, value)], name) == if Lookup(m, name).Some? then Lookup(m, name)
                                               else if key == name then Some(value) else None
    decreases |m|
  {
    if m != [] && m[0].0 != name {
      assert (m + [(key, value)])[1..] == m[1..] + [(key, value)];
      LookupSnoc(m[1..], key, value, name);
    }
  }

  /** The map renames exactly the entry names with a PNG/GIF/WebP/BMP extension, each to
      its .jpg name. */
  lemma {:induction false} RenamePlanExact(entries: seq<ZipEntry>, name: string)
    ensures Lookup(RenamePlan(entries), name)
      == if Renamable(name) && NameIn(entries, name) then Some(JpgName(name)) else None
    decreases |entries|
  {
    if entries != [] {
      var init := entries[..|entries| - 1];
      var last := entries[|entries| - 1].name;
      RenamePlanExact(init, name);
      NameInSnoc(entries, name);
      if Renamable(last) && Lookup(RenamePlan(init), last).None? {
        LookupSnoc(RenamePlan(init), last, JpgName(last), name);
      }
    }
  }

  /** No key appears twice. */
  predicate Keys(m: RenameMap)
  {
    forall i, j :: 0 <= i < j < |m| ==> m[i].0 != m[j].0
  }

  /** The map's keys are distinct, as a dict's are. */
  lemma {:induction false} RenamePlanKeys(entries: seq<ZipEntry>)
    ensures Keys(RenamePlan(entries))
    decreases |entries|
  {
    if entries != [] {
      RenamePlanKeys(entries[..|entries| - 1]);
    }
  }

  /** The first pass: the map is filled before any entry is processed. */
  method PlanRenames(entries: seq<ZipEntry>) returns (m: RenameMap)
    ensures m == RenamePlan(entries)
  {
    m := [];
    for i := 0 to |entries|
      invariant m == RenamePlan(entries[..i])
    {
      RenamePlanSnoc(entries, i);
      var name := entries[i].name;
      var lower := Lower(name);
      if RenamedExt(lower) {
        var present := Lookup(m, name);
        if present.None? {
          m := m + [(name, JpgName(name))];
        }
      }
    }
    assert entries[..|entries|] == entries;
  }

  // ---------------------------------------------------------------------------------------
  // Rewriting references

  /** One pair of the map applied to a text: its basename first, then its full name. */
  function ApplyRename(text: string, pair: (string, string)): string
  {
    ReplaceAll(ReplaceAll(text, Basename(pair.0), Basename(pair.1)), pair.0, pair.1)
  }

  /** The whole map applied in its order. */
  function RewriteRefs(text: string, m: RenameMap): string
    decreases |m|
  {
    if m == [] then text else RewriteRefs(ApplyRename(text, m[0]), m[1..])
  }

  /** A text that mentions no name of the map, neither in full nor by its basename, is
      left as it is. */
  lemma {:induction false} RewriteUnreferenced(text: string, m: RenameMap)
    requires forall k :: 0 <= k < |m| ==> (Basename(m[k].0) != "" && m[k].0 != ""
      && !Occurs(Basename(m[k].0), text) && !Occurs(m[k].0, text))
    ensures RewriteRefs(text, m) == text
    decreases |m|
  {
    if m != [] {
      ReplaceAbsent(text, Basename(m[0].0), Basename(m[0].1));
      ReplaceAbsent(text, m[0].0, m[0].1);
      assert forall k :: 1 <= k < |m| ==> m[1..][k - 1] == m[k];
      RewriteUnreferenced(text, m[1..]);
    }
  }

  /** A text that mentions the basename of the map's first image once, and nothing else of
      the map, gets the new basename there and is otherwise left as it is. */
  lemma RewriteReferenced(before: string, after: string, m: RenameMap)
    requires m != [] && Basename(m[0].0) != "" && m[0].0 != ""
    requires forall i :: 0 <= i < |before| ==>
      !OccursAt(Basename(m[0].0), before + Basename(m[0].0) + after, i)
    requires !Occurs(Basename(m[0].0), after)
    requires !Occurs(m[0].0, before + Basename(m[0].1) + after)
    requires forall k :: 1 <= k < |m| ==> (Basename(m[k].0) != "" && m[k].0 != ""
      && !Occurs(Basename(m[k].0), before + Basename(m[0].1) + after)
      && !Occurs(m[k].0, before + Basename(m[0].1) + after))
    ensures RewriteRefs(before + Basename(m[0].0) + after, m) == before + Basename(m[0].1) + after
  {
    var bo, bn := Basename(m[0].0), Basename(m[0].1);
    var r := before + bn + after;
    ReplaceFirst(before, bo, after, bn);
    ReplaceAbsent(after, bo, bn);
    ReplaceAbsent(r, m[0].0, m[0].1);
    assert ApplyRename(before + bo + after, m[0]) == r;
    assert forall k :: 1 <= k < |m| ==> m[1..][k - 1] == m[k];
    RewriteUnreferenced(r, m[1..]);
  }

  /** The loop over the map's items. */
  method Rewrite(text: string, m: RenameMap) returns (r: string)
    ensures r == RewriteRefs(text, m)
  {
    r := text;
    for i := 0 to |m|
      invariant RewriteRefs(r, m[i..]) == RewriteRefs(text, m)
    {
      assert m[i..][1..] == m[i + 1..];
      var oldName := m[i].0;
      var newName := m[i].1;
      r := ReplaceAll(r, Basename(oldName), Basename(newName));
      r := ReplaceAll(r, oldName, newName);
    }
  }

  // ---------------------------------------------------------------------------------------
  // The second pass

  /** `if new_data:` — a conversion counts when it gives bytes, and not none. */
  predicate Converts(e: ZipEntry, convert: seq<byte> -> Option<seq<byte>>)
  {
    IsImage(e.name) && convert(e.data).Some? && |convert(e.data).value| > 0
  }

  /** A content file's text with the references rewritten; a file that is not UTF-8 keeps
      its bytes. */
  function RewriteContent(data: seq<byte>, m: RenameMap): seq<byte>
  {
    match Utf8.Decode(data)
    case None => data
    case Some(text) => Utf8.Encode(RewriteRefs(text, m))
  }

  /** The package document likewise, with fixOpf, its media-type fix, after the rewrite. */
  function RewriteOpf(data: seq<byte>, m: RenameMap, fixOpf: string -> string): seq<byte>
  {
    match Utf8.Decode(data)
    case None => data
    case Some(text) => Utf8.Encode(fixOpf(RewriteRefs(text, m)))
  }

  /** The name an entry gets: its .jpg name when it is a converted image in the map. */
  function OutName(e: ZipEntry, m: RenameMap, convert: seq<byte> -> Option<seq<byte>>): string
  {
    if Converts(e, convert) && Lookup(m, e.name).Some? then Lookup(m, e.name).value else e.name
  }

  /** The bytes an entry gets. */
  function OutData(e: ZipEntry, m: RenameMap, convert: seq<byte> -> Option<seq<byte>>,
                   fixOpf: string -> string): seq<byte>
  {
    if IsImage(e.name) then (if Converts(e, convert) then convert(e.data).value else e.data)
    else if IsContent(e.name) then RewriteContent(e.data, m)
    else if IsOpf(e.name) then RewriteOpf(e.data, m, fixOpf)
    else e.data
  }

  /** How an entry is written: `mimetype` stored under its own name, every other entry
      deflated under its new name. */
  function WriteOf(e: ZipEntry, m: RenameMap, convert: seq<byte> -> Option<seq<byte>>,
                   fixOpf: string -> string): Written
  {
    var data := OutData(e, m, convert, fixOpf);
    if e.name == MIMETYPE then Written(e.name, data, true) else Written(OutName(e, m, convert), data, false)
  }

  /** f applied to every element, in order. */
  function Each<A, B>(s: seq<A>, f: A -> B): seq<B>
  {
    if s == [] then [] else Each(s[..|s| - 1], f) + [f(s[|s| - 1])]
  }

  /** One result per element. */
  lemma {:induction false} EachLength<A, B>(s: seq<A>, f: A -> B)
    ensures |Each(s, f)| == |s|
    decreases |s|
  {
    if s != [] {
      EachLength(s[..|s| - 1], f);
    }
  }

  /** The result at position i is f of element i. */
  lemma {:induction false} EachAt<A, B>(s: seq<A>, f: A -> B, i: nat)
    requires i < |s|
    ensures i < |Each(s, f)| && Each(s, f)[i] == f(s[i])
    decreases |s|
  {
    var init := s[..|s| - 1];
    EachLength(init, f);
    if i < |init| {
      EachAt(init, f, i);
      assert init[i] == s[i];
    }
  }

  /** The written entries, in input order. */
  function Output(entries: seq<ZipEntry>, m: RenameMap, convert: seq<byte> -> Option<seq<byte>>,
                  fixOpf: string -> string): seq<Written>
  {
    Each(entries, e => WriteOf(e, m, convert, fixOpf))
  }

  /** One written entry per input entry, in order. */
  lemma OutputEach(entries: seq<ZipEntry>, m: RenameMap, convert: seq<byte> -> Option<seq<byte>>,
                   fixOpf: string -> string)
    ensures var out := Output(entries, m, convert, fixOpf);
      |out| == |entries| && forall i :: 0 <= i < |entries| ==> out[i] == WriteOf(entries[i], m, convert, fixOpf)
  {
    var f := e => WriteOf(e, m, convert, fixOpf);
    EachLength(entries, f);
    forall i | 0 <= i < |entries| ensures Each(entries, f)[i] == WriteOf(entries[i], m, convert, fixOpf) {
      EachAt(entries, f, i);
    }
  }

  /** The conversions that count. */
  function ConvertedCount(entries: seq<ZipEntry>, convert: seq<byte> -> Option<seq<byte>>): nat
  {
    if entries == [] then 0
    else ConvertedCount(entries[..|entries| - 1], convert) + (if Converts(entries[|entries| - 1], convert) then 1 else 0)
  }

  /** The entries with an image extension. */
  function ImageCount(entries: seq<ZipEntry>): nat
  {
    if entries == [] then 0
    else ImageCount(entries[..|entries| - 1]) + (if IsImage(entries[|entries| - 1].name) then 1 else 0)
  }

  /** The count never exceeds the number of images, nor the number of entries. */
  lemma {:induction false} CountBounded(entries: seq<ZipEntry>, convert: seq<byte> -> Option<seq<byte>>)
    ensures ConvertedCount(entries, convert) <= ImageCount(entries) <= |entries|
    decreases |entries|
  {
    if entries != [] {
      CountBounded(entries[..|entries| - 1], convert);
    }
  }

  /** When every image converts, every image is counted. */
  lemma {:induction false} CountAllConverted(entries: seq<ZipEntry>, convert: seq<byte> -> Option<seq<byte>>)
    requires forall i :: 0 <= i < |entries| && IsImage(entries[i].name) ==> Converts(entries[i], convert)
    ensures ConvertedCount(entries, convert) == ImageCount(entries)
    decreases |entries|
  {
    if entries != [] {
      var init := entries[..|entries| - 1];
      assert forall i :: 0 <= i < |init| ==> init[i] == entries[i];
      CountAllConverted(init, convert);
    }
  }

  /** What happens to one entry, the map being the archive's own:
      only `mimetype` is stored; an image is renamed exactly when it converted and has a
      PNG/GIF/WebP/BMP name, and keeps its name and bytes when the conversion fails; any
      other entry keeps its name. */
  lemma WrittenEntry(entries: seq<ZipEntry>, i: nat, convert: seq<byte> -> Option<seq<byte>>, fixOpf: string -> string)
    requires i < |entries|
    ensures var e := entries[i];
      var w := WriteOf(e, RenamePlan(entries), convert, fixOpf);
      && (w.stored <==> e.name == MIMETYPE)
      && (!IsImage(e.name) ==> w.name == e.name)
      && (IsImage(e.name) && !Converts(e, convert) ==> w.name == e.name && w.data == e.data)
      && (Converts(e, convert) ==> w.data == convert(e.data).value)
      && (Converts(e, convert) && e.name != MIMETYPE ==>
            w.name == if Renamable(e.name) then JpgName(e.name) else e.name)
  {
    var e := entries[i];
    RenamePlanExact(entries, e.name);
    assert NameIn(entries, e.name);
  }

  /** `mimetype` is not an image, a content file or a package document, so it is written
      stored with its own bytes. */
  lemma MimetypeUnchanged(m: RenameMap, convert: seq<byte> -> Option<seq<byte>>, fixOpf: string -> string,
                          data: seq<byte>)
    ensures WriteOf(ZipEntry(MIMETYPE, data), m, convert, fixOpf) == Written(MIMETYPE, data, true)
  {
    var lower := Lower(MIMETYPE);
    assert lower[|lower| - 1] == 'e';
    NotSuffixAt(lower, ".jpg", 3);
    NotSuffixAt(lower, ".jpeg", 4);
    NotSuffixAt(lower, ".png", 3);
    NotSuffixAt(lower, ".gif", 3);
    NotSuffixAt(lower, ".webp", 4);
    NotSuffixAt(lower, ".bmp", 3);
    NotSuffixAt(lower, ".xhtml", 5);
    NotSuffixAt(lower, ".html", 4);
    NotSuffixAt(lower, ".htm", 3);
    NotSuffixAt(lower, ".css", 3);
    NotSuffixAt(lower, ".ncx", 3);
    NotSuffixAt(lower, ".opf", 3);
  }

  /** A content file is rewritten with the whole map whatever the conversions do, so the
      references to an image whose conversion fails still move to its .jpg name. */
  lemma ContentIgnoresConversion(e: ZipEntry, m: RenameMap, c1: seq<byte> -> Option<seq<byte>>,
                                 c2: seq<byte> -> Option<seq<byte>>, fixOpf: string -> string)
    requires IsContent(e.name) && !IsImage(e.name)
    ensures OutData(e, m, c1, fixOpf) == OutData(e, m, c2, fixOpf)
    ensures Utf8.Decode(e.data) == None ==> OutData(e, m, c1, fixOpf) == e.data
    ensures Utf8.Decode(e.data).Some? ==> OutData(e, m, c1, fixOpf) == Utf8.Encode(RewriteRefs(Utf8.Decode(e.data).value, m))
  {
  }

  /** The output archive as `zout` receives it, one `writestr` at a time. */
  class ZipOut {
    var written: seq<Written>

    constructor ()
      ensures written == []
    {
      written := [];
    }

    /** `zout.writestr`. */
    method WriteStr(w: Written)
      modifies this
      ensures written == old(written) + [w]
    {
      written := written + [w];
    }
  }

  /** One entry of the second pass: the conversion of an image, the rewrite of a content
      file or of the package document, and the name it is written under. */
  method ProcessEntry(e: ZipEntry, m: RenameMap, convert: seq<byte> -> Option<seq<byte>>, fixOpf: string -> string)
    returns (w: Written, converted: bool)
    ensures w == WriteOf(e, m, convert, fixOpf)
    ensures converted <==> Converts(e, convert)
  {
    var data := e.data;
    var filename := e.name;
    var lower := Lower(filename);
    converted := false;
    if ImageExt(lower) {
      var newData := convert(data);
      if newData.Some? && |newData.value| > 0 {
        data := newData.value;
        converted := true;
        var renamed := Lookup(m, filename);
        if renamed.Some? {
          filename := renamed.value;
        }
      }
    } else if ContentExt(lower) {
      var text := Utf8.Decode(data);
      if text.Some? {
        var r := Rewrite(text.value, m);
        data := Utf8.Encode(r);
      }
    } else if EndsWith(lower, ".opf") {
      var text := Utf8.Decode(data);
      if text.Some? {
        var r := Rewrite(text.value, m);
        data := Utf8.Encode(fixOpf(r));
      }
    }
    if e.name == MIMETYPE {
      w := Written(e.name, data, true);
    } else {
      w := Written(filename, data, false);
    }
  }

  /** The loop body of the second pass: entry i is processed, written, and counted. */
  method WriteEntry(zout: ZipOut, entries: seq<ZipEntry>, i: nat, m: RenameMap,
                    convert: seq<byte> -> Option<seq<byte>>, fixOpf: string -> string, count: nat)
    returns (next: nat)
    requires i < |entries|
    requires zout.written == Output(entries[..i], m, convert, fixOpf)
    requires count == ConvertedCount(entries[..i], convert)
    modifies zout
    ensures zout.written == Output(entries[..i + 1], m, convert, fixOpf)
    ensures next == ConvertedCount(entries[..i + 1], convert)
  {
    assert entries[..i + 1][..i] == entries[..i];
    var w, converted := ProcessEntry(entries[i], m, convert, fixOpf);
    next := if converted then count + 1 else count;
    zout.WriteStr(w);
  }

  /** `convert_epub_images`: the rename map is planned from all entries first; then every
      entry is processed and written in input order, one written entry per input entry;
      the result counts the images whose conversion gave bytes, and the archive goes to
      outputPath or, without one, back to epubPath. */
  method ConvertEpubImages(epubPath: string, outputPath: Option<string>, entries: seq<ZipEntry>,
                           convert: seq<byte> -> Option<seq<byte>>, fixOpf: string -> string)
    returns (count: nat, target: string, archive: seq<Written>)
    ensures target == OutputPath(epubPath, outputPath)
    ensures archive == Output(entries, RenamePlan(entries), convert, fixOpf)
    ensures count == ConvertedCount(entries, convert)
  {
    target := if outputPath.None? then epubPath else outputPath.value;
    count := 0;
    var m := PlanRenames(entries);
    var zout := new ZipOut();
    for i := 0 to |entries|
      invariant zout.written == Output(entries[..i], m, convert, fixOpf)
      invariant count == ConvertedCount(entries[..i], convert)
    {
      count := WriteEntry(zout, entries, i, m, convert, fixOpf, count);
    }
    assert entries[..|entries|] == entries;
    archive := zout.written;
  }
}
