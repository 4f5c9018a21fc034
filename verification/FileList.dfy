/** The linked list of saved files that defragment builds (fsutil2.c). */
module FileLists {
  import opened Blocks
  import opened Directories
  import opened SortSpec

  /** struct FileInfo: a file's name and contents, whose length is its size. */
  class FileInfo {
    const name: Name
    const content: seq<Byte>
    var next: FileInfo?

    constructor (name: Name, content: seq<Byte>, next: FileInfo?)
      ensures this.name == name && this.content == content && this.next == next
    {
      this.name, this.content, this.next := name, content, next;
    }
  }

  datatype Saved = Saved(name: Name, content: seq<Byte>)

  /** What the nodes hold. */
  function SavedIn(nodes: seq<FileInfo>): (r: seq<Saved>)
    ensures |r| == |nodes|
  {
    seq(|nodes|, i requires 0 <= i < |nodes| => Saved(nodes[i].name, nodes[i].content))
  }

  /** Following next from HEAD visits exactly NODES. */
  ghost predicate Chain(head: FileInfo?, nodes: seq<FileInfo>)
    reads nodes
  {
    if nodes == [] then head == null
    else head == nodes[0] && Chain(nodes[0].next, nodes[1..])
  }

  ghost predicate Distinct(nodes: seq<FileInfo>) {
    forall i, j :: 0 <= i < j < |nodes| ==> nodes[i] != nodes[j]
  }

  ghost predicate Listed(head: FileInfo?, nodes: seq<FileInfo>)
    reads nodes
  {
    Chain(head, nodes) && Distinct(nodes)
  }

  /** reverse_list */
  method ReverseList(head: FileInfo?, ghost nodes: seq<FileInfo>) returns (prev: FileInfo?)
    requires Chain(head, nodes) && Distinct(nodes)
    modifies nodes
    ensures Chain(prev, Reversed(nodes))
  {
    prev := null;
    var current := head;
    ghost var done: seq<FileInfo>, rest: seq<FileInfo> := [], nodes;
    while current != null
      invariant Chain(prev, done) && Chain(current, rest) && Distinct(rest)
      invariant Reversed(nodes) == Reversed(rest) + done
      invariant forall n :: n in rest ==> n in nodes && n !in done
      decreases |rest|
    {
      ghost var more := rest[1..];
      var next := current.next;
      assert Chain(next, more) && current !in more && current in nodes && current !in done;
      current.next := prev;
      assert Reversed(rest) == Reversed(more) + [current];
      assert ([current] + done)[1..] == done;
      done, rest := [current] + done, more;
      prev := current;
      current := next;
    }
    assert rest == [] && Reversed(nodes) == done;
  }
}
