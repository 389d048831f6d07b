/** The node that the VFS and its drivers share. */
module Vnode {
  import opened Bytes

  /** A cached block: `size` bytes of `buffer` belong to the file. */
  datatype Page = Page(block: nat, buffer: seq<Byte>, size: nat, dirty: bool)

  class Node {
    var isDirectory: bool
    var size: nat
    var inode: nat
    var blockSize: nat
    var name: seq<Byte>
    var parentInode: nat
    var cachePages: seq<Page>

    constructor (isDirectory: bool, size: nat, inode: nat, blockSize: nat, name: seq<Byte>, parentInode: nat)
      ensures this.isDirectory == isDirectory && this.size == size && this.inode == inode
      ensures this.blockSize == blockSize && this.name == name && this.parentInode == parentInode && cachePages == []
    {
      this.isDirectory, this.size, this.inode, this.blockSize := isDirectory, size, inode, blockSize;
      this.name, this.parentInode, cachePages := name, parentInode, [];
    }
  }
}
