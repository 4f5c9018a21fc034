/** Open files (file.c): a position over an inode, and the caller's buffer. */
module OpenFiles {
  import opened Blocks
  import opened Content
  import opened Layout
  import opened Volumes
  import opened Directories
  import opened FileSystems
  import opened Growth

  /** BUFFER is none of the file system's own memory. */
  ghost predicate Separate(fs: FileSystem, buffer: array<Byte>) {
    buffer as object !in {fs.vol.cache, fs.vol.cache.cache, fs.vol.cache.device, fs.vol.freeMap, fs.vol.freeMap.bits}
  }

  /** struct file */
  class File {
    const inode: Inode
    var pos: int

    /** file_open */
    constructor (inode: Inode)
      ensures this.inode == inode && pos == 0
    {
      this.inode := inode;
      pos := 0;
    }

    /** file_read: the bytes from the position on go to the front of the buffer, and the position
        moves past them. */
    method Read(fs: FileSystem, buffer: array<Byte>, size: nat, ghost name: Name) returns (bytesRead: nat)
      requires fs.Valid() && fs.OpenOn(inode, name) && Separate(fs, buffer) && size <= buffer.Length && pos >= 0
      modifies this`pos, buffer, fs.vol.cache, fs.vol.cache.cache, fs.vol.cache.device
      ensures fs.Valid() && fs.OpenOn(inode, name) && pos == old(pos) + bytesRead && bytesRead <= size
      ensures name in fs.View() && buffer[..bytesRead] == Slice(fs.View()[name], old(pos), size)
      ensures buffer[bytesRead..] == old(buffer[..])[bytesRead..]
    {
      var bytes := fs.ReadFile(inode, size, pos, name);
      bytesRead := |bytes|;
      CopyIn(buffer, bytes);
      pos := pos + bytesRead;
    }

    /** file_write: the last byte written is forced to NUL, in the caller's buffer too, and the
        position ends up two bytes short of what was written. */
    method Write(fs: FileSystem, buffer: array<Byte>, size: nat, ghost name: Name) returns (bytesWritten: nat)
      requires fs.Valid() && fs.OpenOn(inode, name) && Separate(fs, buffer) && 0 < size <= buffer.Length
      requires 0 <= pos && pos + size < 0x8000_0000
      modifies this`pos, buffer, inode, fs`files, fs`slots, fs.vol`disk, fs.vol`tags
      modifies fs.vol.cache, fs.vol.cache.cache, fs.vol.cache.device, fs.vol.freeMap.bits
      ensures buffer[..] == old(buffer[..])[size - 1 := 0]
      ensures bytesWritten == if old(fs.FileFits(inode, pos + size)) then size else 0
      ensures pos == old(pos) + bytesWritten - 2 && (pos >= 0 <==> old(pos) + bytesWritten >= 2)
      ensures bytesWritten > 0 ==> fs.Valid() && fs.OpenOn(inode, name)
      ensures fs.slots == old(fs.slots) && LostKept(old(fs.vol.tags), fs.vol.tags)
      ensures bytesWritten == 0 ==> fs.vol.Ok() && fs.View() == old(fs.View()) && fs.files == old(fs.files)
      ensures Sector0(fs.vol.disk) == if old(fs.WriteOverruns(inode, pos + size)) then Zeros() else Sector0(old(fs.vol.disk))
      ensures bytesWritten > 0 ==> name in old(fs.View())
      ensures bytesWritten > 0 ==> fs.View() == old(fs.View())[name := Spliced(old(fs.View())[name], old(pos), buffer[..size])]
      ensures bytesWritten > 0 && old(pos) + size <= old(inode.data.length) ==>
                fs.vol.tags == old(fs.vol.tags) && fs.files == old(fs.files)
    {
      buffer[size - 1] := 0;
      bytesWritten := fs.WriteFile(inode, buffer[..size], pos, name);
      pos := pos + bytesWritten - 2;
    }
  }

  method CopyIn(buffer: array<Byte>, bytes: seq<Byte>)
    requires |bytes| <= buffer.Length
    modifies buffer
    ensures buffer[..|bytes|] == bytes && buffer[|bytes|..] == old(buffer[..])[|bytes|..]
  {
    for i := 0 to |bytes|
      invariant buffer[..i] == bytes[..i] && buffer[i..] == old(buffer[..])[i..]
    {
      buffer[i] := bytes[i];
    }
  }
}
