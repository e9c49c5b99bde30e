/** The upload application's records: the names under which uploaded coverage files and merged
    tracefiles are kept in the file storage, and the clean-up that runs after a record is deleted. */
module Models {
  import opened Errors
  import opened Numerals
  import Host

  const Prefix := "coveragefile/"
  /** The number of hex digits `%032x` writes for a 128-bit hash. */
  const HashDigits := 32

  /** `content_file_name`: the storage name of an uploaded file, `hash` being the 128-bit random
      number drawn for it. The name lies in the `coveragefile/` directory. */
  function ContentFileName(hash: nat, filename: string): (r: string)
    ensures |r| > |Prefix| + |filename| && r[..|Prefix|] == Prefix
    ensures r[|r| - |filename|..] == filename
  {
    var r := Prefix + PaddedHex(hash, HashDigits) + "-" + filename;
    assert r[..|Prefix|] == Prefix;
    r
  }

  /** Splits a storage name back into the hash and the file name it was made from. */
  function ParseContentName(s: string): Result<(nat, string)> {
    var start, stop := |Prefix|, |Prefix| + HashDigits;
    if |s| > stop && s[..start] == Prefix && AllDigits(s[start..stop], 16) && s[stop] == '-' then
      Ok((Value(s[start..stop], 16), s[stop + 1..]))
    else
      Err("not a content file name")
  }

  /** Every hash `getrandbits(128)` can draw is written as exactly 32 hex digits, so the hash and
      the file name are read back unchanged. */
  lemma ContentNameRoundTrip(hash: nat, filename: string)
    requires hash < Pow(16, HashDigits)
    ensures ParseContentName(ContentFileName(hash, filename)) == Ok((hash, filename))
  {
    var h := PaddedHex(hash, HashDigits);
    PaddedHexWidth(hash, HashDigits);
    var r := Prefix + h + "-" + filename;
    assert r[..|Prefix|] == Prefix;
    assert r[|Prefix|..|Prefix| + HashDigits] == h;
    assert r[|Prefix| + HashDigits] == '-';
    assert r[|Prefix| + HashDigits + 1..] == filename;
  }

  /** Two uploads share a storage name only when they drew the same hash for the same file name. */
  lemma ContentNameInjective(h1: nat, f1: string, h2: nat, f2: string)
    requires h1 < Pow(16, HashDigits) && h2 < Pow(16, HashDigits)
    requires ContentFileName(h1, f1) == ContentFileName(h2, f2)
    ensures h1 == h2 && f1 == f2
  {
    ContentNameRoundTrip(h1, f1);
    ContentNameRoundTrip(h2, f2);
  }

  const MergedPrefix := "merged_report_"

  /** `'merged_report_%d' % id`: the name a report's merged tracefile is saved under, from which
      the report's id can be read back. */
  function MergedReportName(id: int): (r: string)
    ensures |r| > |MergedPrefix| && r[..|MergedPrefix|] == MergedPrefix
    ensures ParseDecimal(r[|MergedPrefix|..]) == Ok(id)
  {
    var r := MergedPrefix + Decimal(id);
    assert r[..|MergedPrefix|] == MergedPrefix && r[|MergedPrefix|..] == Decimal(id);
    DecimalRoundTrip(id);
    r
  }

  /** The truth value of an optional text column: `None` and the empty string are false. */
  predicate IsSet(p: Option<string>) {
    p.Some? && p.value != ""
  }

  /** An uploaded coverage file: who uploaded it, for which version, and its storage name. */
  datatype CoverageFile = CoverageFile(name: string, userName: string, version: string, coveragefile: string)

  /** A generated report. `id` is `None` until the record has been saved; `tracefile` is the
      storage name of its merged tracefile, empty while none is attached. */
  class CoverageReport {
    var id: Option<int>
    var name: string
    var version: string
    var path: Option<string>
    var url: Option<string>
    var tracefile: string
    var rules: Option<string>

    constructor (id0: Option<int>, name0: string, version0: string, path0: Option<string>,
                 url0: Option<string>, rules0: Option<string>)
      ensures id == id0 && name == name0 && version == version0 && path == path0
      ensures url == url0 && rules == rules0 && tracefile == ""
    {
      id, name, version, path, url, rules := id0, name0, version0, path0, url0, rules0;
      tracefile := "";
    }

    /** `save_tracefile`: the text of the file at `source` is saved in the file storage under the
        content name of `merged_report_<id>`, drawn with `hash`, and the report refers to it. A
        report not yet saved has no id to format, and a missing file cannot be opened: both raise
        and change nothing. */
    method SaveTracefile(m: Host.Machine, source: string, hash: nat) returns (s: Status)
      requires hash < Pow(16, HashDigits)
      requires id.Some? ==> ContentFileName(hash, MergedReportName(id.value)) !in m.storage
      modifies this`tracefile, m`storage
      ensures s.Done? <==> id.Some? && source in m.files
      ensures s.Done? ==> var n := ContentFileName(hash, MergedReportName(id.value));
                          tracefile == n && m.storage == old(m.storage)[n := m.files[source]]
      ensures s.Failed? ==> tracefile == old(tracefile) && m.storage == old(m.storage)
    {
      if id.None? {
        return Failed("%d format: a number is required, not NoneType");
      }
      var base := MergedReportName(id.value);
      var text := m.ReadText(source);
      if text.Err? {
        return Failed(text.reason);
      }
      var stored := ContentFileName(hash, base);
      m.storage := m.storage[stored := text.value];
      tracefile := stored;
      s := Done;
    }
  }

  /** The post-delete handler of an uploaded coverage file: its stored file is deleted. */
  method CoverageFileDeleted(m: Host.Machine, f: CoverageFile)
    modifies m`storage
    ensures m.storage == if f.coveragefile != "" then old(m.storage) - {f.coveragefile} else old(m.storage)
  {
    m.DeleteStored(f.coveragefile);
  }

  /** The post-delete handler of a report: the report directory is removed when a path is set,
      whether or not it exists, and the stored tracefile is deleted when one is attached. */
  method CoverageReportDeleted(m: Host.Machine, r: CoverageReport)
    modifies m`trees, m`storage
    ensures m.trees == if IsSet(r.path) then old(m.trees) - {r.path.value} else old(m.trees)
    ensures m.storage == if r.tracefile != "" then old(m.storage) - {r.tracefile} else old(m.storage)
  {
    if IsSet(r.path) {
      var _ := m.RmTree(r.path.value);
    }
    if r.tracefile != "" {
      m.DeleteStored(r.tracefile);
    }
  }
}
