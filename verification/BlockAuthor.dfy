/** The per-block author slot. */
module BlockAuthor {
  import opened Scale

  datatype SetAuthorResult = Accepted | BadOrigin | AuthorAlreadySet

  class AuthorSlot {
    var author: Option<H256>

    constructor ()
      ensures author == None
    {
      author := None;
    }

    /** Only an inherent may set the author, and only once in a block. */
    method SetAuthor(isInherent: bool, key: H256) returns (r: SetAuthorResult)
      modifies this
      ensures r == Accepted <==> isInherent && old(author) == None
      ensures r == BadOrigin <==> !isInherent
      ensures author == if r == Accepted then Some(key) else old(author)
    {
      if !isInherent {
        return BadOrigin;
      }
      if author != None {
        return AuthorAlreadySet;
      }
      author := Some(key);
      return Accepted;
    }

    /** Start of block: the slot of the previous block is cleared. */
    method OnInitialize()
      modifies this
      ensures author == None
    {
      author := None;
    }
  }
}
