/** The zero-fill loop that makes a new disk image (user_space_application/main.c). */
module Format {
  import opened Store
  import opened Blocks

  /** Writes the loop performs, the superblock's included. */
  function Pieces(size: int): nat {
    if size <= BLOCK_SIZE then 1 else (size + BLOCK_SIZE - 1) / BLOCK_SIZE
  }

  /** width is the byte count passed to each write. As written it is the size of a pointer. */
  method FormatImage(size: int, width: nat) returns (image: Bytes)
    ensures image == Zeros(width * Pieces(size))
  {
    image := Zeros(width);
    var i := BLOCK_SIZE;
    ghost var pieces := 1;
    while i < size
      invariant pieces >= 1 && i == BLOCK_SIZE * pieces
      invariant i < size + BLOCK_SIZE || pieces == 1
      invariant image == Zeros(width * pieces)
    {
      image := image + Zeros(width);
      i := i + BLOCK_SIZE;
      assert width * (pieces + 1) == width * pieces + width;
      pieces := pieces + 1;
    }
    assert pieces == Pieces(size);
  }

  /** The image is the least whole number of blocks, at least one, that covers the size asked for, exactly when
      each write is a whole block. */
  lemma ImageSize(size: int, width: nat, blocks: nat)
    ensures width * Pieces(size) == BLOCK_SIZE * Pieces(size) <==> width == BLOCK_SIZE
    ensures BLOCK_SIZE * Pieces(size) >= size
    ensures blocks >= 1 && BLOCK_SIZE * blocks >= size ==> Pieces(size) <= blocks
  {
    var p := Pieces(size);
    assert p >= 1;
    if width < BLOCK_SIZE {
      assert (BLOCK_SIZE - width) * p > 0;
    } else if width > BLOCK_SIZE {
      assert (width - BLOCK_SIZE) * p > 0;
    }
  }
}
