/** `mime_types::extension_to_type`: a linear search over a constant
    table of five extensions, with `text/plain` for anything else. */
module Mime {

  datatype Mapping = Mapping(extension: string, mimeType: string)

  /** The `mappings` table, in its order. */
  const MAPPINGS: seq<Mapping> := [
    Mapping("gif", "image/gif"),
    Mapping("htm", "text/html"),
    Mapping("html", "text/html"),
    Mapping("jpg", "image/jpeg"),
    Mapping("png", "image/png")
  ]

  const DEFAULT_TYPE: string := "text/plain"

  /** The type of the first row of `table` whose extension is `ext`,
      compared exactly. */
  function Lookup(table: seq<Mapping>, ext: string): (r: string)
    ensures (exists i :: 0 <= i < |table| && table[i].extension == ext && r == table[i].mimeType)
            || ((forall i :: 0 <= i < |table| ==> table[i].extension != ext) && r == DEFAULT_TYPE)
  {
    if table == [] then DEFAULT_TYPE
    else if table[0].extension == ext then table[0].mimeType
    else Lookup(table[1..], ext)
  }

  /** The search stops at the first matching row. */
  lemma {:induction false} LookupFindsFirst(table: seq<Mapping>, ext: string, i: nat)
    requires i < |table| && table[i].extension == ext
    requires forall j :: 0 <= j < i ==> table[j].extension != ext
    ensures Lookup(table, ext) == table[i].mimeType
  {
    if i > 0 {
      LookupFindsFirst(table[1..], ext, i - 1);
    }
  }

  /** Without a matching row the default is returned. */
  lemma {:induction false} LookupDefault(table: seq<Mapping>, ext: string)
    requires forall j :: 0 <= j < |table| ==> table[j].extension != ext
    ensures Lookup(table, ext) == DEFAULT_TYPE
  {
    if table != [] {
      LookupDefault(table[1..], ext);
    }
  }

  /** `extension_to_type`: the range-for over the table with an early
      return. */
  method ExtensionToType(ext: string) returns (t: string)
    ensures t == Lookup(MAPPINGS, ext)
  {
    var table := MAPPINGS;
    var i := 0;
    while i < |table|
      invariant 0 <= i <= |table|
      invariant forall j :: 0 <= j < i ==> table[j].extension != ext
    {
      if table[i].extension == ext {
        LookupFindsFirst(table, ext, i);
        return table[i].mimeType;
      }
      i := i + 1;
    }
    LookupDefault(table, ext);
    return DEFAULT_TYPE;
  }

  /** Each row of the table is found: no extension appears twice, so no
      earlier row shadows a later one. */
  lemma KnownExtension(ext: string, t: string)
    requires Mapping(ext, t) in MAPPINGS
    ensures Lookup(MAPPINGS, ext) == t
  {
    var i :| 0 <= i < |MAPPINGS| && MAPPINGS[i] == Mapping(ext, t);
    LookupFindsFirst(MAPPINGS, ext, i);
  }

  predicate IsKnownExtension(ext: string)
  {
    ext == "gif" || ext == "htm" || ext == "html" || ext == "jpg" || ext == "png"
  }

  /** Any other extension, including an upper-case spelling of a known
      one, gives `text/plain`; the result is always one of five types. */
  lemma OtherExtensions(ext: string)
    ensures !IsKnownExtension(ext) <==> Lookup(MAPPINGS, ext) == DEFAULT_TYPE
    ensures Lookup(MAPPINGS, ext) in {"image/gif", "text/html", "image/jpeg", "image/png", DEFAULT_TYPE}
  {
    if IsKnownExtension(ext) {
      var row := if ext == "gif" then MAPPINGS[0] else if ext == "htm" then MAPPINGS[1]
        else if ext == "html" then MAPPINGS[2] else if ext == "jpg" then MAPPINGS[3] else MAPPINGS[4];
      KnownExtension(row.extension, row.mimeType);
    } else {
      forall j | 0 <= j < |MAPPINGS| ensures MAPPINGS[j].extension != ext {
      }
      LookupDefault(MAPPINGS, ext);
    }
  }

  /** Matching is case-sensitive. */
  lemma UpperCaseIsUnknown()
    ensures Lookup(MAPPINGS, "GIF") == DEFAULT_TYPE
  {
    OtherExtensions("GIF");
  }
}
