/** The JPA repositories the core reads and writes, as abstract maps. */
module Repositories {
  import opened Model

  class DocumentRepository {
    var documents: map<int, Document>

    /** Every stored document is stored under its own id. */
    ghost predicate Valid()
      reads this
    {
      forall id :: id in documents ==> documents[id].id == id
    }

    constructor ()
      ensures documents == map[] && Valid()
    {
      documents := map[];
    }

    /** `save`: the document is stored under its id. */
    method Save(document: Document)
      requires Valid()
      modifies this
      ensures documents == old(documents)[document.id := document]
      ensures Valid()
      ensures document.id in old(documents) && old(documents)[document.id] == document ==> documents == old(documents)
    {
      documents := documents[document.id := document];
    }
  }

  class UserRepository {
    var byUsername: map<string, User>
    var byId: map<int, User>

    constructor ()
      ensures byUsername == map[] && byId == map[]
    {
      byUsername := map[];
      byId := map[];
    }
  }
}
