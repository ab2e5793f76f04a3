/** Opening files without a drive letter: path rewriting into a bounded buffer, and volume discovery with a cache.

Names are C strings, so they hold no NUL; characters are the bytes of the name, which widening keeps. */
module NativePaths {
  import opened Helpers

  const PATH_CAPACITY: nat := 320

  const VOLUMES: nat := 13

  /** The table of prefixes: the C: link, then the hard disk volumes 1 to 12, each with the data directory. */
  function DataPrefix(i: nat): (p: string)
    requires i < VOLUMES
    ensures IsRooted(p) && '/' !in p && IsCString(p)
  {
    VolumeName(i) + "\\Windows\\System32\\"
  }

  function VolumeName(i: nat): (n: string)
    requires i < VOLUMES
    ensures IsRooted(n) && '/' !in n && IsCString(n)
  {
    if i == 0 then "\\GLOBAL??\\C:" else "\\Device\\HarddiskVolume" + Numeral(i)
  }

  function Numeral(i: nat): (n: string)
    requires i < VOLUMES
    ensures '/' !in n && IsCString(n)
  {
    if i < 10 then [('0' as int + i) as char] else ['1', ('0' as int + i - 10) as char]
  }

  // ---- Path rewriting ----

  predicate IsCString(s: string) { '\0' !in s }

  predicate HasDotPrefix(name: string) { |name| >= 2 && name[0] == '.' && (name[1] == '/' || name[1] == '\\') }

  function Strip(name: string): string { if HasDotPrefix(name) then Strip(name[2..]) else name }

  predicate IsRooted(name: string) { name != [] && name[0] == '\\' }

  function Slash(c: char): char { if c == '/' then '\\' else c }

  function Slashes(name: string): (r: string)
    ensures |r| == |name| && forall i | 0 <= i < |r| :: r[i] == Slash(name[i])
  {
    seq(|name|, i requires 0 <= i < |name| => Slash(name[i]))
  }

  function Take(s: string, n: nat): string { if |s| <= n then s else s[..n] }

  /** The full native path, before it is cut to fit its buffer. */
  function FullPath(name: string, prefix: string): string {
    var stripped := Strip(name);
    (if IsRooted(stripped) then [] else prefix) + Slashes(stripped)
  }

  function NativePath(name: string, prefix: string, capacity: nat): string
    requires capacity > 0
  {
    Take(FullPath(name, prefix), capacity - 1)
  }

  lemma TakeConcat(a: string, b: string, n: nat, first: string, both: string)
    requires first == a[..Min(|a|, n)] && both == first + b[..Min(|b|, n - |first|)]
    ensures both == Take(a + b, n)
  {
  }

  /** A buffer that held `before` now begins with `text`. */
  ghost predicate BeginsWith(now: string, text: string, before: string) {
    |text| <= |before| && now == text + before[|text|..]
  }

  /** The copying loop: appends as many characters as leave room for the NUL. */
  method Append(path: array<char>, index: nat, source: string, slashes: bool, capacity: nat,
                ghost text: string, ghost before: string) returns (next: nat, ghost longer: string)
    requires index == |text| < capacity <= path.Length && BeginsWith(path[..], text, before)
    modifies path
    ensures longer == text + (if slashes then Slashes(source) else source)[..Min(|source|, capacity - 1 - index)]
    ensures next == |longer| < capacity && BeginsWith(path[..], longer, before)
  {
    hide Slashes;
    next, longer := index, text;
    var copied := 0;
    ghost var all := if slashes then Slashes(source) else source;
    while copied < |source| && next + 1 < capacity
      invariant copied <= |source| && next == index + copied == |longer| < capacity
      invariant longer == text + all[..copied]
      invariant BeginsWith(path[..], longer, before)
    {
      path[next] := if slashes && source[copied] == '/' then '\\' else source[copied];
      assert path[next] == all[copied] && all[..copied + 1] == all[..copied] + [all[copied]];
      longer := longer + [path[next]];
      next, copied := next + 1, copied + 1;
    }
  }

  /** The stripping loop. */
  method StripDots(filename: string) returns (name: string)
    ensures name == Strip(filename)
  {
    name := filename;
    while HasDotPrefix(name)
      invariant Strip(name) == Strip(filename)
      decreases |name|
    {
      name := name[2..];
    }
  }

  /** Fills the path buffer: the first capacity - 1 characters of the native path, then a NUL, and nothing else. */
  method AsciiPathToNative(filename: string, prefix: string, path: array<char>, capacity: nat) returns (ghost r: string)
    requires IsCString(filename) && IsCString(prefix) && 0 < capacity <= path.Length
    modifies path
    ensures r == NativePath(filename, prefix, capacity) && |r| < capacity && IsCString(r)
    ensures BeginsWith(path[..], r + ['\0'], old(path[..]))
  {
    var name := StripDots(filename);
    r := FillPath(name, prefix, path, capacity);
    NativePathIsCString(filename, prefix, capacity);
  }

  /** The copying loops and the final NUL. */
  method FillPath(name: string, prefix: string, path: array<char>, capacity: nat) returns (ghost r: string)
    requires 0 < capacity <= path.Length
    modifies path
    ensures r == Take((if IsRooted(name) then [] else prefix) + Slashes(name), capacity - 1)
    ensures BeginsWith(path[..], r + ['\0'], old(path[..]))
  {
    var index := 0;
    ghost var before := path[..];
    r := [];
    if !IsRooted(name) {
      index, r := Append(path, index, prefix, false, capacity, r, before);
    }
    ghost var first, start := r, if IsRooted(name) then [] else prefix;
    assert first == start[..Min(|start|, capacity - 1)];
    index, r := Append(path, index, name, true, capacity, r, before);
    TakeConcat(start, Slashes(name), capacity - 1, first, r);
    Terminate(path, index, r, before);
  }

  method Terminate(path: array<char>, index: nat, ghost text: string, ghost before: string)
    requires index == |text| < path.Length && BeginsWith(path[..], text, before)
    modifies path
    ensures BeginsWith(path[..], text + ['\0'], before)
  {
    path[index] := '\0';
  }

  lemma NativePathIsCString(name: string, prefix: string, capacity: nat)
    requires IsCString(name) && IsCString(prefix) && capacity > 0
    ensures IsCString(NativePath(name, prefix, capacity))
  {
    StripKeeps(name);
  }

  lemma {:induction false} StripKeeps(name: string)
    ensures !HasDotPrefix(Strip(name))
    ensures IsCString(name) ==> IsCString(Strip(name))
    decreases |name|
  {
    if HasDotPrefix(name) {
      StripKeeps(name[2..]);
    }
  }

  /** A rooted path without forward slashes is its own native path. */
  lemma NativePathIsFixed(path: string, prefix: string, capacity: nat)
    requires capacity > |path| && IsRooted(path) && '/' !in path
    ensures NativePath(path, prefix, capacity) == path
  {
  }

  lemma NativePathIsNative(name: string, prefix: string, capacity: nat)
    requires capacity > 1 && IsRooted(prefix) && '/' !in prefix
    ensures IsRooted(NativePath(name, prefix, capacity)) && '/' !in NativePath(name, prefix, capacity)
  {
  }

  /** Rewriting is idempotent: a path made with any prefix of the table is left alone by a second rewriting with any
      prefix, because it is rooted and has no forward slash. */
  lemma RewritingIsIdempotent(name: string, i: nat, j: nat, capacity: nat)
    requires i < VOLUMES && j < VOLUMES && capacity > 0
    ensures var path := NativePath(name, DataPrefix(i), capacity); NativePath(path, DataPrefix(j), capacity) == path
  {
    if capacity > 1 {
      NativePathIsNative(name, DataPrefix(i), capacity);
      NativePathIsFixed(NativePath(name, DataPrefix(i), capacity), DataPrefix(j), capacity);
    }
  }

  /** Leading current-directory prefixes, with either slash, make no difference. */
  lemma DotsAreDropped(name: string, prefix: string)
    ensures FullPath("./" + name, prefix) == FullPath(name, prefix)
    ensures FullPath(".\\" + name, prefix) == FullPath(name, prefix)
  {
    assert ("./" + name)[2..] == name && (".\\" + name)[2..] == name;
  }

  /** A path is `start` and then the characters of the name, each slash turned. */
  ghost predicate Spells(path: string, start: string, name: string) {
    && |path| == |start| + |name| && path[..|start|] == start
    && forall i | 0 <= i < |name| :: path[|start| + i] == if name[i] == '/' then '\\' else name[i]
  }

  /** The characters of a native path: those of the prefix, unless the name starts with a backslash, and those of the
      name with every slash turned. */
  lemma PathIsSpelled(name: string, prefix: string)
    requires !(|name| >= 2 && name[0] == '.' && (name[1] == '/' || name[1] == '\\'))
    ensures Spells(FullPath(name, prefix), if |name| > 0 && name[0] == '\\' then [] else prefix, name)
  {
    var start := if |name| > 0 && name[0] == '\\' then [] else prefix;
    NoDots(name, prefix);
    hide *;
    SpelledAfter(start, name);
  }

  lemma NoDots(name: string, prefix: string)
    requires !(|name| >= 2 && name[0] == '.' && (name[1] == '/' || name[1] == '\\'))
    ensures FullPath(name, prefix) == (if |name| > 0 && name[0] == '\\' then [] else prefix) + Slashes(name)
  {
  }

  lemma SpelledAfter(start: string, name: string)
    ensures Spells(start + Slashes(name), start, name)
  {
  }

  /** A native path fits its buffer: it is the full path, cut so that the NUL has room. */
  lemma PathIsCutToFit(name: string, prefix: string, capacity: nat)
    requires capacity > 0
    ensures var path, full := NativePath(name, prefix, capacity), FullPath(name, prefix);
            |path| < capacity && path <= full && (|path| < capacity - 1 ==> path == full)
  {
  }

  /** The table: the C: link, then the hard disk volumes 1 to 12 in order. */
  lemma PrefixTable(i: nat)
    requires i < VOLUMES
    ensures VOLUMES == 13
    ensures i == 0 ==> DataPrefix(i) == "\\GLOBAL??\\C:\\Windows\\System32\\"
    ensures i > 0 ==> var numeral := ["1", "2", "3", "4", "5", "6", "7", "8", "9", "10", "11", "12"][i - 1];
                      DataPrefix(i) == "\\Device\\HarddiskVolume" + numeral + "\\Windows\\System32\\"
  {
    if i == 0 {
      assert VolumeName(0) + "\\Windows\\System32\\" == "\\GLOBAL??\\C:\\Windows\\System32\\";
    } else {
      NumeralTable(i);
    }
  }

  lemma NumeralTable(i: nat)
    requires 0 < i < VOLUMES
    ensures Numeral(i) == ["1", "2", "3", "4", "5", "6", "7", "8", "9", "10", "11", "12"][i - 1]
  {
  }

  // ---- Volume discovery ----

  datatype Disposition = OpenExisting | OpenIf | OverwriteIf

  function DispositionOf(mode: string): Disposition {
    if 'w' in mode then OverwriteIf else if 'a' in mode then OpenIf else OpenExisting
  }

  /** What one open meets: a name, a mode, whether the file object can be allocated, and the kernel's answer at the try
      for each volume to each path and disposition. The same path may be answered differently at different tries. */
  datatype Open = Open(name: string, mode: string, hasMemory: bool, kernel: (nat, string, Disposition) -> bool) {
    predicate Accepts(volume: nat)
      requires volume < VOLUMES
    {
      kernel(volume, NativePath(name, DataPrefix(volume), PATH_CAPACITY), DispositionOf(mode))
    }
  }

  /** The first volume from `first` on, up to and excluding `final`, where the open succeeds. */
  function FirstHit(open: Open, first: nat, final: nat): (r: Option<nat>)
    requires first <= final <= VOLUMES
    ensures r.Some? ==> first <= r.value < final && open.Accepts(r.value)
    ensures forall v | first <= v < (if r.Some? then r.value else final) :: !open.Accepts(v)
    decreases final - first
  {
    hide Open.Accepts;
    if first == final then None else if open.Accepts(first) then Some(first) else FirstHit(open, first + 1, final)
  }

  predicate ValidCache(cache: int) { -1 <= cache < VOLUMES }

  /** The volume one open ends up on. */
  function Hit(cache: int, open: Open): (r: Option<nat>)
    requires ValidCache(cache)
  {
    if !open.hasMemory then None
    else if cache >= 0 then FirstHit(open, cache, cache + 1)
    else FirstHit(open, 0, VOLUMES)
  }

  function Cached(cache: int, open: Open): (r: int)
    requires ValidCache(cache)
    ensures ValidCache(r)
  {
    if Hit(cache, open).Some? then Hit(cache, open).value else cache
  }

  /** The request made for one volume. */
  function Asked(open: Open, volume: nat): (string, Disposition)
    requires volume < VOLUMES
  {
    (NativePath(open.name, DataPrefix(volume), PATH_CAPACITY), DispositionOf(open.mode))
  }

  /** The requests made for the volumes from `first` up to and excluding `end`. */
  function Tried(open: Open, first: nat, end: nat): seq<(string, Disposition)>
    requires first <= end <= VOLUMES
  {
    if first == end then []
    else Tried(open, first, end - 1) + [Asked(open, end - 1)]
  }

  /** The requests one open makes: the cached volume only, or every volume up to the first success. */
  function Tries(cache: int, open: Open): seq<(string, Disposition)>
    requires ValidCache(cache)
  {
    var hit := Hit(cache, open);
    if !open.hasMemory then []
    else if cache >= 0 then Tried(open, cache, cache + 1)
    else Tried(open, 0, if hit.Some? then hit.value + 1 else VOLUMES)
  }

  class Platform {
    var dataPrefixIndex: int
    ghost var attempts: seq<(string, Disposition)>  // the paths the kernel has been asked for, in order

    ghost predicate Valid()
      reads this`dataPrefixIndex
    {
      ValidCache(dataPrefixIndex)
    }

    constructor ()
      ensures Valid() && dataPrefixIndex == -1 && attempts == []
    {
      dataPrefixIndex, attempts := -1, [];
    }

    /** Tries the cached volume, or every volume in turn; the volume of the first success is cached. */
    method NativeOpen(open: Open) returns (volume: Option<nat>)
      requires Valid() && IsCString(open.name)
      modifies this
      ensures Valid() && volume == Hit(old(dataPrefixIndex), open)
      ensures dataPrefixIndex == Cached(old(dataPrefixIndex), open)
      ensures attempts == old(attempts) + Tries(old(dataPrefixIndex), open)
    {
      if !open.hasMemory {
        return None;
      }
      var firstPrefix := if dataPrefixIndex >= 0 then dataPrefixIndex else 0;
      var finalPrefix := if dataPrefixIndex >= 0 then dataPrefixIndex + 1 else VOLUMES;
      volume := TryVolumes(open, firstPrefix, finalPrefix);
    }

    /** The loop over volumes. */
    method TryVolumes(open: Open, firstPrefix: nat, finalPrefix: nat) returns (volume: Option<nat>)
      requires IsCString(open.name) && firstPrefix < finalPrefix <= VOLUMES
      modifies this
      ensures volume == FirstHit(open, firstPrefix, finalPrefix)
      ensures dataPrefixIndex == if volume.Some? then volume.value else old(dataPrefixIndex)
      ensures attempts == old(attempts) +
                          Tried(open, firstPrefix, if volume.Some? then volume.value + 1 else finalPrefix)
    {
      hide Asked, Open.Accepts;
      var path := new char[PATH_CAPACITY];
      var prefixIndex := firstPrefix;
      volume := None;
      while prefixIndex < finalPrefix
        invariant firstPrefix <= prefixIndex <= finalPrefix
        invariant dataPrefixIndex == old(dataPrefixIndex) && volume == None
        invariant FirstHit(open, firstPrefix, finalPrefix) == FirstHit(open, prefixIndex, finalPrefix)
        invariant attempts == old(attempts) + Tried(open, firstPrefix, prefixIndex)
      {
        var accepted := TryVolume(open, prefixIndex, path);
        if accepted {
          dataPrefixIndex := prefixIndex;
          volume := Some(prefixIndex);
          break;
        }
        prefixIndex := prefixIndex + 1;
      }
    }

    /** Asks the kernel for the file on one volume. */
    method TryVolume(open: Open, volume: nat, path: array<char>) returns (accepted: bool)
      requires volume < VOLUMES && IsCString(open.name) && path.Length == PATH_CAPACITY
      modifies this`attempts, path
      ensures accepted == open.Accepts(volume) && attempts == old(attempts) + [Asked(open, volume)]
    {
      ghost var text := AsciiPathToNative(open.name, DataPrefix(volume), path, PATH_CAPACITY);
      var asked := CString(path, text);
      attempts := attempts + [(asked, DispositionOf(open.mode))];
      accepted := open.kernel(volume, asked, DispositionOf(open.mode));
    }
  }

  /** The string in a NUL-terminated buffer. */
  method CString(path: array<char>, ghost text: string) returns (s: string)
    requires IsCString(text) && |text| < path.Length && path[..|text| + 1] == text + ['\0']
    ensures s == text
  {
    var n := 0;
    while path[n] != '\0'
      invariant n <= |text|
      decreases |text| - n
    {
      assert path[n] == path[..|text| + 1][n];
      n := n + 1;
    }
    assert path[n] == path[..|text| + 1][n];
    s := path[..n];
    assert s == path[..|text| + 1][..n];
  }

  function CacheAfter(cache: int, opens: seq<Open>): (r: int)
    requires ValidCache(cache)
    ensures ValidCache(r)
    decreases |opens|
  {
    if opens == [] then cache else CacheAfter(Cached(cache, opens[0]), opens[1..])
  }

  /** Once set, the cache never changes, whatever is opened. */
  lemma {:induction false} CacheIsSticky(cache: int, opens: seq<Open>)
    requires ValidCache(cache) && cache >= 0
    ensures CacheAfter(cache, opens) == cache
    decreases |opens|
  {
    if opens != [] {
      CacheIsSticky(cache, opens[1..]);
    }
  }

  /** What a fresh process asks for: the requests for volumes 0, 1, 2 and so on, up to the first that is accepted, or
      all thirteen; without memory, nothing. */
  lemma FreshTriesInOrder(open: Open)
    ensures !open.hasMemory ==> Tries(-1, open) == [] && Hit(-1, open).None?
    ensures open.hasMemory ==>
              var tries := Tries(-1, open);
              && 0 < |tries| <= 13 && (forall i | 0 <= i < |tries| :: tries[i] == Asked(open, i))
              && (forall i | 0 <= i < |tries| - 1 :: !open.Accepts(i))
              && (if open.Accepts(|tries| - 1) then Hit(-1, open) == Some(|tries| - 1)
                  else |tries| == 13 && Hit(-1, open).None?)
  {
    hide Asked, Open.Accepts, FirstHit, Tried;
    if open.hasMemory {
      var hit := Hit(-1, open);
      TriedAt(open, 0, if hit.Some? then hit.value + 1 else VOLUMES);
    }
  }

  /** The request for a volume is for the native path there, cut to 319 characters, and it is accepted when the kernel
      says so at that try. */
  lemma AskedAndAccepted(open: Open, volume: nat)
    requires volume < 13
    ensures var path := NativePath(open.name, DataPrefix(volume), 320);
            && Asked(open, volume) == (path, DispositionOf(open.mode))
            && open.Accepts(volume) == open.kernel(volume, path, DispositionOf(open.mode))
  {
  }

  lemma {:induction false} TriedAt(open: Open, first: nat, end: nat)
    requires first <= end <= VOLUMES
    ensures |Tried(open, first, end)| == end - first
    ensures forall i | 0 <= i < end - first :: Tried(open, first, end)[i] == Asked(open, first + i)
    decreases end
  {
    hide Asked;
    if first < end {
      TriedAt(open, first, end - 1);
    }
  }

  /** Over any run of opens from a fresh process: the cache stays unset as long as no open succeeds, and then is for
      ever the lowest volume on which the first successful open succeeded. */
  lemma {:induction false} VolumeDiscovery(opens: seq<Open>, k: nat)
    requires k <= |opens| && forall i | 0 <= i < k :: Hit(-1, opens[i]).None?
    requires k < |opens| ==> Hit(-1, opens[k]).Some?
    ensures CacheAfter(-1, opens) == if k < |opens| then Hit(-1, opens[k]).value else -1
    ensures k < |opens| ==> var v := CacheAfter(-1, opens);
              0 <= v < VOLUMES && opens[k].Accepts(v) && forall u | 0 <= u < v :: !opens[k].Accepts(u)
    decreases |opens|
  {
    if k > 0 {
      VolumeDiscovery(opens[1..], k - 1);
    } else if opens != [] {
      CacheIsSticky(Cached(-1, opens[0]), opens[1..]);
    }
  }

  /** After the first success, on volume v, every later open asks for exactly one path, the one on v, and opens exactly
      when v accepts it; without memory it asks for nothing. No other volume is ever tried again. */
  lemma LaterOpensTryOneVolume(opens: seq<Open>, k: nat, m: nat)
    requires k < m < |opens| && forall i | 0 <= i < k :: Hit(-1, opens[i]).None?
    requires Hit(-1, opens[k]).Some?
    ensures var v, cache, open := Hit(-1, opens[k]).value, CacheAfter(-1, opens[..m]), opens[m];
            && cache == v
            && Tries(cache, open) == (if open.hasMemory then [Asked(open, v)] else [])
            && Hit(cache, open) == (if open.hasMemory && open.Accepts(v) then Some(v) else None)
  {
    hide Asked, Open.Accepts;
    VolumeDiscovery(opens[..m], k);
    var v, open := Hit(-1, opens[k]).value, opens[m];
    assert Tried(open, v, v + 1) == Tried(open, v, v) + [Asked(open, v)];
    assert FirstHit(open, v, v + 1) == if open.Accepts(v) then Some(v) else None;
  }

  /** A relative name's path starts as its prefix does. */
  lemma RelativePathKeepsPrefix(name: string, volume: nat)
    requires volume < VOLUMES && !IsRooted(Strip(name))
    ensures var path := NativePath(name, DataPrefix(volume), PATH_CAPACITY);
            |path| > 1 && path[1] == if volume == 0 then 'G' else 'D'
  {
    var prefix := DataPrefix(volume);
    assert prefix[1] == VolumeName(volume)[1];
    assert FullPath(name, prefix)[1] == prefix[1];
  }

  /** The cached volume need not be the one with the game data: if the first file opened, say a configuration file, lies
      on volume 0 and the game data on another volume, the data is never found, although a fresh process would find
      it. */
  lemma DataOnAnotherVolumeIsMissed(config: string, wad: string, other: nat)
    requires 0 < other < VOLUMES && !IsRooted(Strip(config)) && !IsRooted(Strip(wad))
    requires NativePath(config, DataPrefix(0), PATH_CAPACITY) != NativePath(wad, DataPrefix(0), PATH_CAPACITY)
    ensures var disk := {NativePath(config, DataPrefix(0), PATH_CAPACITY),
                         NativePath(wad, DataPrefix(other), PATH_CAPACITY)};
            var kernel := (volume: nat, path: string, disposition: Disposition) => path in disk;
            var first, second := Open(config, "r", true, kernel), Open(wad, "rb", true, kernel);
            Cached(-1, first) == 0 && Hit(0, second).None? && Hit(-1, second).Some?
  {
    RelativePathKeepsPrefix(wad, 0);
    RelativePathKeepsPrefix(wad, other);
    hide NativePath, DataPrefix;
    var disk := {NativePath(config, DataPrefix(0), PATH_CAPACITY), NativePath(wad, DataPrefix(other), PATH_CAPACITY)};
    var kernel := (volume: nat, path: string, disposition: Disposition) => path in disk;
    var first, second := Open(config, "r", true, kernel), Open(wad, "rb", true, kernel);
    assert first.Accepts(0) && !second.Accepts(0) && second.Accepts(other);
  }

  /** A rooted name asks for one path at every try, so if the kernel answers that path alike at every try only volume 0
      can be cached, whatever volume the name is on; later relative names then look only there. A later volume is cached
      exactly when the first try fails and a later one does not. */
  lemma RootedNameCachesVolumeZero(open: Open)
    requires IsRooted(Strip(open.name)) && open.hasMemory
    ensures forall v | 0 <= v < VOLUMES :: Asked(open, v) == Asked(open, 0)
    ensures Cached(-1, open) == 0 <==> open.Accepts(0)
    ensures Cached(-1, open) > 0 <==> !open.Accepts(0) && exists v | 0 < v < VOLUMES :: open.Accepts(v)
    ensures (forall v, path, d | 0 <= v < VOLUMES :: open.kernel(v, path, d) == open.kernel(0, path, d)) ==>
              Cached(-1, open) == if open.Accepts(0) then 0 else -1
  {
    forall v | 0 <= v < VOLUMES ensures Asked(open, v) == Asked(open, 0) {
      assert NativePath(open.name, DataPrefix(v), PATH_CAPACITY) == Take(Slashes(Strip(open.name)), PATH_CAPACITY - 1);
    }
    if forall v, path, d | 0 <= v < VOLUMES :: open.kernel(v, path, d) == open.kernel(0, path, d) {
      forall v | 0 <= v < VOLUMES ensures open.Accepts(v) == open.Accepts(0) {
        assert Asked(open, v) == Asked(open, 0);
      }
    }
  }

  // ---- What opening does to the files ----

  type Files = map<string, seq<bv8>>

  /** What the kernel does when it accepts a request: open what is there; or create what is missing; or create or empty
      it. */
  function AfterRequest(files: Files, request: (string, Disposition)): Files {
    var (path, disposition) := request;
    match disposition
    case OpenExisting => files
    case OpenIf => if path in files then files else files[path := []]
    case OverwriteIf => files[path := []]
  }

  function AfterOpen(files: Files, cache: int, open: Open): Files
    requires ValidCache(cache)
  {
    var hit := Hit(cache, open);
    if hit.None? then files else AfterRequest(files, Asked(open, hit.value))
  }

  function AfterOpens(files: Files, cache: int, opens: seq<Open>): Files
    requires ValidCache(cache)
    decreases |opens|
  {
    if opens == [] then files
    else AfterOpens(AfterOpen(files, cache, opens[0]), Cached(cache, opens[0]), opens[1..])
  }

  /** What a mode does to the file that is opened, and to no other: with a 'w' it is emptied or created, with only an
      'a' it keeps its bytes or is created, and with neither nothing is changed or created. */
  lemma ModeDecides(files: Files, cache: int, open: Open)
    requires ValidCache(cache) && Hit(cache, open).Some?
    ensures var path := NativePath(open.name, DataPrefix(Hit(cache, open).value), PATH_CAPACITY);
            var after := AfterOpen(files, cache, open);
            && (forall p | p in files && p != path :: p in after && after[p] == files[p])
            && (forall p | p in after && p != path :: p in files)
            && ('w' in open.mode ==> path in after && after[path] == [])
            && ('w' !in open.mode && 'a' in open.mode ==>
                  path in after && after[path] == if path in files then files[path] else [])
            && ('w' !in open.mode && 'a' !in open.mode ==> after == files)
  {
  }

  /** Opening to read never changes or creates a file, over any run of opens. */
  lemma {:induction false} ReadingChangesNothing(files: Files, cache: int, opens: seq<Open>)
    requires ValidCache(cache) && forall o | o in opens :: 'w' !in o.mode && 'a' !in o.mode
    ensures AfterOpens(files, cache, opens) == files
    decreases |opens|
  {
    if opens != [] {
      if Hit(cache, opens[0]).Some? {
        ModeDecides(files, cache, opens[0]);
      }
      ReadingChangesNothing(files, Cached(cache, opens[0]), opens[1..]);
    }
  }
}
