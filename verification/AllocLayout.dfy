/** Sizes, tags and size classes of the segregated-fit allocator (mica/alloc/alloc.h).
    Sizes here are byte counts; every chunk size is a multiple of 8. */
module AllocLayout {

  const NUM_CLASSES := 32
  const CLASS_INCREMENT := 8
  const MIN_SIZE := 32
  const MAX_SIZE := 0x100_0000_0000 - 1
  const OVERHEAD := 16
  const STATUS_BIT := 0x8000_0000_0000_0000
  const FREE := 0
  const OCCUPIED := 1

  /** The tag word: the size in the low 63 bits, the status in the top bit. For a size
      below 2^63 the bitwise or of the two is their sum. */
  function TagVec(size: nat, status: nat): nat {
    size + status * STATUS_BIT
  }

  function TagSize(vec: nat): nat {
    vec % STATUS_BIT
  }

  function TagStatus(vec: nat): nat {
    vec / STATUS_BIT
  }

  function RoundUp8(x: nat): nat {
    (x + 7) / 8 * 8
  }

  function RoundUp2M(x: nat): nat {
    (x + 2097151) / 2097152 * 2097152
  }

  /** The first class whose chunks are all meant to be large enough for `size` bytes. */
  function SizeToClassRoundUp(size: nat): (c: nat)
    requires size >= MIN_SIZE
    ensures c < NUM_CLASSES
  {
    if size <= MIN_SIZE + (NUM_CLASSES - 1) * CLASS_INCREMENT then
      (size - MIN_SIZE + CLASS_INCREMENT - 1) / CLASS_INCREMENT
    else
      NUM_CLASSES - 1
  }

  /** The class whose list holds a free chunk of `size` bytes. */
  function SizeToClassRoundDown(size: nat): (c: nat)
    requires size >= MIN_SIZE
    ensures c < NUM_CLASSES
  {
    if size < MIN_SIZE + NUM_CLASSES * CLASS_INCREMENT then
      (size - MIN_SIZE) / CLASS_INCREMENT
    else
      NUM_CLASSES - 1
  }

  /** A tag gives back the size and status it was made from, and is a 64-bit word whose top bit is set
      exactly for an occupied chunk. */
  lemma TagRoundTrip(size: nat, status: nat)
    requires size < STATUS_BIT
    ensures TagSize(TagVec(size, status)) == size
    ensures TagStatus(TagVec(size, status)) == status
    ensures status <= OCCUPIED ==>
              TagVec(size, status) < 0x1_0000_0000_0000_0000
              && (TagVec(size, status) >= 0x8000_0000_0000_0000 <==> status == OCCUPIED)
  {
  }

  /** A chunk is filed at or above the class a request starts from exactly when it is large
      enough, as long as the request needs at most 280 bytes; above that the last class
      says only that the chunk has 280 bytes or more. */
  lemma ClassDecidesFit(chunk: nat, request: nat)
    requires chunk % 8 == 0 && request % 8 == 0
    requires chunk >= MIN_SIZE && request >= MIN_SIZE
    ensures request <= 280 ==>
              (SizeToClassRoundDown(chunk) >= SizeToClassRoundUp(request) <==> chunk >= request)
    ensures request > 280 ==>
              (SizeToClassRoundDown(chunk) >= SizeToClassRoundUp(request) <==> chunk >= 280)
  {
  }

  lemma RoundUp2MWords(size: nat)
    requires size > 0
    ensures RoundUp2M(size) % 8 == 0 && RoundUp2M(size) >= MIN_SIZE
    ensures size <= RoundUp2M(size) < size + 2097152 && RoundUp2M(size) % 2097152 == 0
  {
    var pages := (size + 2097151) / 2097152;
    assert RoundUp2M(size) == 8 * (pages * 262144);
  }
}
