/** The record of an online member, the object the pool recycles. */
module Members {
  import opened Directory

  class Member {
    var pk: string
    var tokId: string
    var nickName: string
    var bio: string
    var signature: string
    var recommandTimes: nat

    /** What the record says about its user, apart from the key. */
    ghost function Contents(): Row
      reads this
    {
      Row(tokId, nickName, bio, signature)
    }

    ghost predicate Blank()
      reads this
    {
      pk == "" && Contents() == Row("", "", "", "") && recommandTimes == 0
    }

    constructor ()
      ensures Blank()
    {
      pk, tokId, nickName, bio, signature := "", "", "", "", "";
      recommandTimes := 0;
    }

    method Clear()
      modifies this
      ensures Blank()
    {
      pk := "";
      tokId := "";
      nickName := "";
      bio := "";
      signature := "";
      recommandTimes := 0;
    }
  }
}
