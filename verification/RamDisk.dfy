/** The RAM disk of src/ramdisk.c: a table of 16 slots with first-match lookup.

    C string arguments are texts without a NUL; the terminator is implicit. */
module RamDisk {
  import opened CLib

  const MAX_FILES: nat := 16
  const MAX_FILE_SIZE: nat := 256
  const NAME_SIZE: nat := 32

  datatype File = File(name: seq<char>, data: seq<char>, size: nat, used: bool)

  /** The fixed sizes of a slot's fields, and what is kept in a slot in use. */
  predicate Shaped(f: File) {
    && |f.name| == NAME_SIZE && |f.data| == MAX_FILE_SIZE && f.size < MAX_FILE_SIZE
    && NUL !in f.data[..f.size]
    && (f.used ==> f.name[NAME_SIZE - 1] == NUL)
  }

  function NameOf(f: File): string {
    CStr(f.name)
  }

  function ContentOf(f: File): string
    requires Shaped(f)
  {
    f.data[..f.size]
  }

  // ----- the abstract disk

  /** How many files were created, and what a lookup of each name finds. */
  datatype Disk = Disk(count: nat, contents: map<string, string>)

  const EMPTY: Disk := Disk(0, map[])

  /** The name a file gets. */
  function Stored(name: string): string {
    Take(name, NAME_SIZE - 1)
  }

  /** Creating a name again takes a slot and changes nothing else. */
  function DiskCreate(d: Disk, name: string): Disk {
    if d.count >= MAX_FILES then d
    else Disk(d.count + 1, Extend(d.contents, Stored(name), ""))
  }

  function DiskWrite(d: Disk, name: string, data: string): Disk {
    if name in d.contents then d.(contents := d.contents[name := Take(data, MAX_FILE_SIZE - 1)]) else d
  }

  // ----- slots as a map

  predicate AllShaped(fs: seq<File>) {
    forall i :: 0 <= i < |fs| ==> Shaped(fs[i])
  }

  /** Add a key unless it is there. */
  function Extend(m: map<string, string>, key: string, value: string): map<string, string> {
    if key in m then m else m[key := value]
  }

  /** What lookups in a table find: of two slots with one name, the earlier. */
  function AsMap(fs: seq<File>): map<string, string>
    requires AllShaped(fs)
  {
    if fs == [] then map[]
    else
      var f := fs[|fs| - 1];
      Extend(AsMap(fs[..|fs| - 1]), NameOf(f), ContentOf(f))
  }

  ghost predicate FirstAt(fs: seq<File>, name: string, i: nat) {
    && i < |fs| && NameOf(fs[i]) == name
    && forall j :: 0 <= j < i ==> NameOf(fs[j]) != name
  }

  lemma {:induction false} LookupHits(fs: seq<File>, name: string, i: nat)
    requires AllShaped(fs) && FirstAt(fs, name, i)
    ensures name in AsMap(fs) && AsMap(fs)[name] == ContentOf(fs[i])
    decreases |fs|
  {
    var n := |fs| - 1;
    if i < n {
      LookupHits(fs[..n], name, i);
    } else {
      LookupMisses(fs[..n], name);
    }
  }

  lemma {:induction false} LookupMisses(fs: seq<File>, name: string)
    requires AllShaped(fs)
    requires forall j :: 0 <= j < |fs| ==> NameOf(fs[j]) != name
    ensures name !in AsMap(fs)
    decreases |fs|
  {
    if fs != [] {
      LookupMisses(fs[..|fs| - 1], name);
    }
  }

  lemma AppendSlot(fs: seq<File>, f: File)
    requires AllShaped(fs) && Shaped(f)
    ensures AllShaped(fs + [f])
    ensures AsMap(fs + [f]) == Extend(AsMap(fs), NameOf(f), ContentOf(f))
  {
    assert (fs + [f])[..|fs|] == fs;
  }

  lemma {:induction false} WriteFirst(fs: seq<File>, name: string, i: nat, f: File)
    requires AllShaped(fs) && FirstAt(fs, name, i) && Shaped(f) && NameOf(f) == name
    ensures AllShaped(fs[i := f])
    ensures AsMap(fs[i := f]) == AsMap(fs)[name := ContentOf(f)]
    decreases |fs|
  {
    var n := |fs| - 1;
    assert fs == fs[..n] + [fs[n]];
    AppendSlot(fs[..n], fs[n]);
    if i < n {
      WriteFirst(fs[..n], name, i, f);
      LookupHits(fs[..n], name, i);
      assert fs[i := f] == fs[..n][i := f] + [fs[n]];
      AppendSlot(fs[..n][i := f], fs[n]);
      ExtendUpdated(AsMap(fs[..n]), name, ContentOf(f), NameOf(fs[n]), ContentOf(fs[n]));
    } else {
      LookupMisses(fs[..n], name);
      assert fs[i := f] == fs[..n] + [f];
      AppendSlot(fs[..n], f);
      ExtendOverwritten(AsMap(fs[..n]), name, ContentOf(fs[n]), ContentOf(f));
    }
  }

  lemma ExtendUpdated(m: map<string, string>, name: string, value: string, key: string, v: string)
    requires name in m
    ensures Extend(m[name := value], key, v) == Extend(m, key, v)[name := value]
  {
  }

  lemma ExtendOverwritten(m: map<string, string>, name: string, before: string, after: string)
    requires name !in m
    ensures Extend(m, name, after) == Extend(m, name, before)[name := after]
  {
  }

  // ----- the code

  /** The slot a create fills in; its data stays. */
  method NewFile(slot: File, name: string) returns (f: File)
    requires Shaped(slot) && NUL !in name
    ensures Shaped(f) && f.used && f.data == slot.data
    ensures NameOf(f) == Stored(name) && ContentOf(f) == ""
  {
    var padded := Strncpy(slot.name, name, NAME_SIZE - 1);
    f := slot.(used := true, name := padded[NAME_SIZE - 1 := NUL], size := 0);
    StoredName(name, f.name);
  }

  /** The test of the lookup loops. */
  method Matches(f: File, name: string) returns (hit: bool)
    requires Shaped(f) && NUL !in name
    ensures hit <==> f.used && NameOf(f) == name
  {
    if !f.used {
      return false;
    }
    CStrIs(name + [NUL], |name|);
    assert f.name[NAME_SIZE - 1] == NUL;
    var r := Strcmp(f.name, name + [NUL]);
    CompareZero(NameOf(f), name);
    hit := r == 0;
  }

  class Table {
    const files: array<File>
    ghost var count: nat

    ghost predicate Valid()
      reads this, files
    {
      && files.Length == MAX_FILES && count <= MAX_FILES
      && (forall i :: 0 <= i < MAX_FILES ==> Shaped(files[i]))
      && (forall i :: 0 <= i < MAX_FILES ==> (files[i].used <==> i < count))
    }

    ghost function View(): Disk
      reads this, files
      requires Valid()
    {
      Disk(count, AsMap(files[..count]))
    }

    /** The table as the program starts. */
    constructor ()
      ensures Valid() && fresh(files) && View() == EMPTY
    {
      files := new File[MAX_FILES](_ => File(seq(NAME_SIZE, _ => NUL), seq(MAX_FILE_SIZE, _ => NUL), 0, false));
      count := 0;
    }

    /** `ramdisk_init`: names, data and sizes stay in the slots. */
    method Init()
      requires Valid()
      modifies this, files
      ensures Valid() && View() == EMPTY
    {
      for i := 0 to MAX_FILES
        invariant forall j :: 0 <= j < MAX_FILES ==> Shaped(files[j])
        invariant forall j :: 0 <= j < i ==> !files[j].used
      {
        files[i] := files[i].(used := false);
      }
      count := 0;
    }

    /** `ramdisk_create`. */
    method Create(name: string) returns (r: int)
      requires Valid() && NUL !in name
      modifies this, files
      ensures Valid() && View() == DiskCreate(old(View()), name)
      ensures r == if old(View()).count < 16 then 0 else -1
    {
      for i := 0 to MAX_FILES
        invariant Valid() && count == old(count) && files[..] == old(files[..])
        invariant i <= count
      {
        if !files[i].used {
          TakeSlot(i, name);
          return 0;
        }
      }
      return -1;
    }

    /** Fill in slot `i`, the first free one. */
    method TakeSlot(i: nat, name: string)
      requires Valid() && NUL !in name && i == count < MAX_FILES
      modifies this, files
      ensures Valid() && View() == DiskCreate(old(View()), name)
    {
      var f := NewFile(files[i], name);
      files[i] := f;
      count := count + 1;
      AppendSlot(old(files[..count]), f);
      assert files[..count] == old(files[..count]) + [f];
    }

    /** The lookup loop of `ramdisk_write` and `ramdisk_read`. */
    method Find(name: string) returns (i: nat)
      requires Valid() && NUL !in name
      ensures i <= MAX_FILES
      ensures i < MAX_FILES ==> i < count && FirstAt(files[..count], name, i)
      ensures i < MAX_FILES <==> name in View().contents
    {
      ghost var fs := files[..count];
      i := 0;
      while i < MAX_FILES
        invariant i <= MAX_FILES
        invariant forall j :: 0 <= j < i && j < count ==> NameOf(fs[j]) != name
      {
        var hit := Matches(files[i], name);
        if hit {
          LookupHits(fs, name, i);
          return;
        }
        i := i + 1;
      }
      LookupMisses(fs, name);
    }

    /** `ramdisk_write`. */
    method Write(name: string, data: string) returns (r: int)
      requires Valid() && NUL !in name && NUL !in data
      modifies files
      ensures Valid() && View() == DiskWrite(old(View()), name, data)
      ensures r == if name in old(View()).contents then 0 else -1
    {
      var i := Find(name);
      if i == MAX_FILES {
        return -1;
      }
      var f := files[i];
      var j := 0;
      while j < |data| && j < MAX_FILE_SIZE - 1
        invariant j <= |data| && j <= MAX_FILE_SIZE - 1
        invariant |f.data| == MAX_FILE_SIZE && f.data[..j] == data[..j]
        invariant f == files[i].(data := f.data)
      {
        f := f.(data := f.data[j := data[j]]);
        j := j + 1;
      }
      f := f.(data := f.data[j := NUL], size := j);
      assert ContentOf(f) == Take(data, MAX_FILE_SIZE - 1);
      WriteFirst(files[..count], name, i, f);
      files[i] := f;
      assert files[..count] == old(files[..count])[i := f];
      return 0;
    }

    /** Every content fits a buffer of the size of a file's. */
    lemma ContentsFit(name: string)
      requires Valid()
      ensures name in View().contents ==> |View().contents[name]| < MAX_FILE_SIZE
    {
      MapContentsFit(files[..count], name);
    }

    /** `ramdisk_read`. */
    method Read(name: string, buffer: array<char>) returns (r: int)
      requires Valid() && NUL !in name
      requires name in View().contents ==> |View().contents[name]| < buffer.Length
      modifies buffer
      ensures Valid() && View() == old(View())
      ensures r == if name in View().contents then 0 else -1
      ensures r == -1 ==> buffer[..] == old(buffer[..])
      ensures r == 0 ==> var text := View().contents[name];
                         && |text| < buffer.Length && buffer[..|text|] == text && buffer[|text|] == NUL
                         && NUL !in text
                         && buffer[|text| + 1..] == old(buffer[..])[|text| + 1..]
    {
      var i := Find(name);
      if i == MAX_FILES {
        return -1;
      }
      LookupHits(files[..count], name, i);
      CopyOut(files[i].data, files[i].size, buffer);
      return 0;
    }
  }

  /** The copy loop of `ramdisk_read`. */
  method CopyOut(data: seq<char>, size: nat, buffer: array<char>)
    requires size <= |data| && size < buffer.Length
    modifies buffer
    ensures buffer[..size] == data[..size] && buffer[size] == NUL
    ensures buffer[size + 1..] == old(buffer[..])[size + 1..]
  {
    for j := 0 to size
      invariant forall k :: 0 <= k < j ==> buffer[k] == data[k]
      invariant forall k :: j <= k < buffer.Length ==> buffer[k] == old(buffer[k])
    {
      buffer[j] := data[j];
    }
    buffer[size] := NUL;
  }

  lemma {:induction false} MapContentsFit(fs: seq<File>, name: string)
    requires AllShaped(fs)
    ensures name in AsMap(fs) ==> |AsMap(fs)[name]| < MAX_FILE_SIZE
    decreases |fs|
  {
    if fs != [] {
      MapContentsFit(fs[..|fs| - 1], name);
    }
  }

  lemma StoredName(name: string, field: seq<char>)
    requires NUL !in name
    requires |field| == NAME_SIZE && field[NAME_SIZE - 1] == NUL
    requires field[..NAME_SIZE - 1] == Padded(name, NAME_SIZE - 1)
    ensures CStr(field) == Stored(name)
  {
    var n := |Stored(name)|;
    assert field[..n] == Stored(name);
    assert n < NAME_SIZE - 1 ==> field[n] == field[..NAME_SIZE - 1][n] == NUL;
    CStrIs(field, n);
  }
}
