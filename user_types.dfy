/** The profile record shared by every component (src/types/User.ts). */
module UserTypes {
  import opened Wrappers

  datatype Address = Address(street: string, suite: string, city: string, zipcode: string)

  /** A company carries its name and nothing else. */
  datatype Company = Company(name: string)

  /** `liked` is an optional field: `None` is the absent (`undefined`) value. */
  datatype User = User(
    id: int,
    name: string,
    username: string,
    email: string,
    address: Address,
    phone: string,
    website: string,
    company: Company,
    liked: Option<bool>)

  /** JavaScript truthiness of `user.liked`: an absent value is falsy. */
  predicate IsLiked(u: User) {
    u.liked == Some(true)
  }

  /** `a` and `b` agree on every field except, possibly, `liked`. */
  predicate SameExceptLiked(a: User, b: User) {
    && a.id == b.id
    && a.name == b.name
    && a.username == b.username
    && a.email == b.email
    && a.address == b.address
    && a.phone == b.phone
    && a.website == b.website
    && a.company == b.company
  }

  /** No two records of the collection share an id (not enforced by the program). */
  predicate UniqueIds(users: seq<User>) {
    forall i, j :: 0 <= i < j < |users| ==> users[i].id != users[j].id
  }

  /** Some record of the collection has the given id. */
  predicate HasId(users: seq<User>, id: int) {
    exists i :: 0 <= i < |users| && users[i].id == id
  }
}
