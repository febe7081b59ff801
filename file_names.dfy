/** File-name handling of file-based SRs: FileVDI.extractUuid and
    FileSR._isCacheFileName. The extensions come from vhdutil, which is not
    part of this model; its values ".vhd" and ".raw" are used here. */
module FileNames {
  import opened Wrappers

  const FILE_EXTN_VHD: string := ".vhd"
  const FILE_EXTN_RAW: string := ".raw"
  const CACHE_FILE_EXT: string := ".vhdcache"
  /** Util.UUID_LEN */
  const UUID_LEN: nat := 36

  /** The characters Python 3's `str.isspace()` accepts, which are the ones
      `str.strip()` removes: U+0009-U+000D, U+001C-U+0020, U+0085, U+00A0,
      U+1680, U+2000-U+200A, U+2028, U+2029, U+202F, U+205F and U+3000. */
  predicate IsSpace(c: char)
  {
    var n := c as int;
    || 0x09 <= n <= 0x0D
    || 0x1C <= n <= 0x20
    || n == 0x85 || n == 0xA0 || n == 0x1680
    || 0x2000 <= n <= 0x200A
    || n == 0x2028 || n == 0x2029 || n == 0x202F || n == 0x205F || n == 0x3000
  }

  /** Removes the leading whitespace, and only that. */
  function LStrip(s: string): (r: string)
    ensures |r| <= |s| && r == s[|s| - |r|..]
    ensures r != [] ==> !IsSpace(r[0])
    ensures forall i :: 0 <= i < |s| - |r| ==> IsSpace(s[i])
  {
    if s != [] && IsSpace(s[0]) then LStrip(s[1..]) else s
  }

  /** Removes the trailing whitespace, and only that. */
  function RStrip(s: string): (r: string)
    ensures |r| <= |s| && r == s[..|r|]
    ensures r != [] ==> !IsSpace(r[|r| - 1])
    ensures forall i :: |r| <= i < |s| ==> IsSpace(s[i])
  {
    if s != [] && IsSpace(s[|s| - 1]) then RStrip(s[..|s| - 1]) else s
  }

  /** `str.strip()` */
  function Strip(s: string): string
  {
    RStrip(LStrip(s))
  }

  /** Index just past the last '/' in `s[..n]`, 0 when there is none. */
  function BaseStart(s: string, n: nat): (k: nat)
    requires n <= |s|
    ensures k <= n
    ensures forall i :: k <= i < n ==> s[i] != '/'
    ensures k > 0 ==> s[k - 1] == '/'
  {
    if n == 0 then 0 else if s[n - 1] == '/' then n else BaseStart(s, n - 1)
  }

  /** `os.path.basename`: the part after the last '/'. */
  function Basename(s: string): (r: string)
    ensures '/' !in r
    ensures |r| <= |s| && r == s[|s| - |r|..]
  {
    s[BaseStart(s, |s|)..]
  }

  predicate EndsWith(s: string, suffix: string)
  {
    |suffix| <= |s| && s[|s| - |suffix|..] == suffix
  }

  /** `s.replace(pat, "")`: removes the non-overlapping occurrences of `pat`,
      scanning from the left. */
  function RemoveAll(s: string, pat: string): (r: string)
    requires pat != []
    ensures |r| <= |s|
    ensures '/' !in s ==> '/' !in r
  {
    if |pat| <= |s| && s[..|pat|] == pat then RemoveAll(s[|pat|..], pat)
    else if s == [] then []
    else [s[0]] + RemoveAll(s[1..], pat)
  }

  /** FileVDI.extractUuid: None unless the base name of the stripped path
      ends in ".vhd" or ".raw"; otherwise the base name with every ".vhd" and
      then every ".raw" removed. */
  function ExtractUuid(path: string): (r: Option<string>)
    ensures r.Some? <==> EndsWith(Basename(Strip(path)), FILE_EXTN_VHD)
                         || EndsWith(Basename(Strip(path)), FILE_EXTN_RAW)
    ensures r.Some? ==> '/' !in r.value
  {
    var name := Basename(Strip(path));
    if !(EndsWith(name, FILE_EXTN_VHD) || EndsWith(name, FILE_EXTN_RAW)) then None
    else Some(RemoveAll(RemoveAll(name, FILE_EXTN_VHD), FILE_EXTN_RAW))
  }

  /** The characters of a UUID as the storage manager writes them. */
  predicate IsUuidChar(c: char)
  {
    '0' <= c <= '9' || 'a' <= c <= 'f' || c == '-'
  }

  predicate IsUuidText(u: string)
  {
    forall i :: 0 <= i < |u| ==> IsUuidChar(u[i])
  }

  lemma {:induction false} RemoveAllSkipsUuid(u: string, t: string, pat: string)
    requires IsUuidText(u) && pat != [] && pat[0] == '.'
    ensures RemoveAll(u + t, pat) == u + RemoveAll(t, pat)
    decreases |u|
  {
    if u != [] {
      var s := u + t;
      assert s[0] == u[0] != '.';
      assert |pat| <= |s| ==> s[..|pat|][0] != pat[0];
      assert s[1..] == u[1..] + t;
      RemoveAllSkipsUuid(u[1..], t, pat);
      assert RemoveAll(s, pat) == [u[0]] + RemoveAll(s[1..], pat);
      assert [u[0]] + u[1..] == u;
    } else {
      assert u + t == t;
    }
  }

  lemma {:induction false} RemoveAllKeepsUuid(u: string, pat: string)
    requires IsUuidText(u) && pat != [] && pat[0] == '.'
    ensures RemoveAll(u, pat) == u
  {
    RemoveAllSkipsUuid(u, [], pat);
    assert u + [] == u;
  }

  lemma NoSlashConcat(a: string, b: string)
    requires '/' !in a && '/' !in b
    ensures '/' !in a + b
  {
    forall i | 0 <= i < |a + b| ensures (a + b)[i] != '/' {
      if i >= |a| { assert (a + b)[i] == b[i - |a|]; }
    }
  }

  lemma {:induction false} BasenameOfPath(dir: string, name: string)
    requires '/' !in name
    ensures Basename(dir + "/" + name) == name
  {
    var p := dir + "/" + name;
    assert p[|dir|] == '/';
    assert forall i :: |dir| < i < |p| ==> p[i] == name[i - |dir| - 1];
    var k := BaseStart(p, |p|);
    assert k == |dir| + 1;
    assert p[k..] == name;
  }

  /** The UUID part survives both removals; the extension does not. */
  lemma RemoveExtensions(u: string, raw: bool)
    requires IsUuidText(u)
    ensures var ext := if raw then FILE_EXTN_RAW else FILE_EXTN_VHD;
            RemoveAll(RemoveAll(u + ext, FILE_EXTN_VHD), FILE_EXTN_RAW) == u
  {
    var ext := if raw then FILE_EXTN_RAW else FILE_EXTN_VHD;
    RemoveAllSkipsUuid(u, ext, FILE_EXTN_VHD);
    if raw {
      assert RemoveAll(ext, FILE_EXTN_VHD) == ext;
      RemoveAllSkipsUuid(u, ext, FILE_EXTN_RAW);
      assert RemoveAll(ext, FILE_EXTN_RAW) == [];
    } else {
      assert RemoveAll(ext, FILE_EXTN_VHD) == [];
      RemoveAllKeepsUuid(u, FILE_EXTN_RAW);
    }
    assert u + [] == u;
  }

  lemma UuidNameFacts(u: string, ext: string)
    requires IsUuidText(u) && (ext == FILE_EXTN_RAW || ext == FILE_EXTN_VHD)
    ensures '/' !in u + ext && EndsWith(u + ext, ext)
  {
    assert '/' !in u && '/' !in ext;
    NoSlashConcat(u, ext);
    assert (u + ext)[|u|..] == ext;
  }

  predicate AllSpace(s: string)
  {
    forall i :: 0 <= i < |s| ==> IsSpace(s[i])
  }

  /** Left-stripping stops at or before the first '/'. */
  lemma LStripStops(pre: string, a: string) returns (k: nat)
    requires a != [] && a[0] == '/'
    ensures k <= |pre| && LStrip(pre + a) == pre[k..] + a
  {
    var p := pre + a;
    var l := LStrip(p);
    k := |p| - |l|;
    assert p[|pre|] == '/' && !IsSpace('/');
    assert k <= |pre|;
    assert l == p[k..];
    assert p[k..] == pre[k..] + a;
  }

  /** Right-stripping removes exactly trailing whitespace after a
      non-whitespace character. */
  lemma RStripPad(q: string, pad: string)
    requires q != [] && !IsSpace(q[|q| - 1]) && AllSpace(pad)
    ensures RStrip(q + pad) == q
  {
    var l := q + pad;
    assert l[|q| - 1] == q[|q| - 1];
    assert forall i :: |q| <= i < |l| ==> l[i] == pad[i - |q|];
    assert l[..|q|] == q;
  }

  /** Stripping stops at the first non-whitespace character from each end. */
  lemma StripAround(pre: string, a: string, pad: string) returns (k: nat)
    requires a != [] && a[0] == '/' && !IsSpace(a[|a| - 1]) && AllSpace(pad)
    ensures k <= |pre| && Strip(pre + a + pad) == pre[k..] + a
  {
    assert pre + a + pad == pre + (a + pad);
    k := LStripStops(pre, a + pad);
    assert pre[k..] + (a + pad) == (pre[k..] + a) + pad;
    RStripPad(pre[k..] + a, pad);
  }

  /** The file name FileVDI gives a VDI ("%s%s" % (uuid, ext)), under any
      directory and with any whitespace around the path, gives the UUID
      back. */
  lemma ExtractUuidOfFileName(dir: string, u: string, raw: bool, pad: string)
    requires IsUuidText(u) && AllSpace(pad)
    ensures var ext := if raw then FILE_EXTN_RAW else FILE_EXTN_VHD;
            ExtractUuid(dir + "/" + u + ext + pad) == Some(u)
  {
    var ext := if raw then FILE_EXTN_RAW else FILE_EXTN_VHD;
    var name := u + ext;
    var p := dir + "/" + u + ext + pad;
    UuidNameFacts(u, ext);
    assert p == dir + ("/" + name) + pad;
    var k := StripAround(dir, "/" + name, pad);
    assert Strip(p) == dir[k..] + "/" + name;
    BasenameOfPath(dir[k..], name);
    RemoveExtensions(u, raw);
  }

  /** FileSR._isCacheFileName */
  predicate IsCacheFileName(name: string)
  {
    |name| == UUID_LEN + |CACHE_FILE_EXT| && EndsWith(name, CACHE_FILE_EXT)
  }

  /** A name is a cache file name exactly when it is a 36-character stem
      followed by ".vhdcache". */
  lemma CacheFileNames(stem: string)
    ensures IsCacheFileName(stem + CACHE_FILE_EXT) <==> |stem| == UUID_LEN
  {
    var n := stem + CACHE_FILE_EXT;
    assert n[|n| - |CACHE_FILE_EXT|..] == CACHE_FILE_EXT;
  }

  lemma CacheFileNameSplits(name: string)
    requires IsCacheFileName(name)
    ensures name == name[..UUID_LEN] + CACHE_FILE_EXT
  {
  }
}
