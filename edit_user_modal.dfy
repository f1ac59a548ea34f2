/** The profile editor (src/components/EditUserModal.tsx): prefilling the form
    from a user, validating the submitted values, and merging them back into
    the record. The antd form store is not modelled; the values the form
    holds are an input. */
module EditUserModal {
  import opened Wrappers
  import opened UserTypes

  /** The five form fields. */
  datatype FormValues = FormValues(
    name: string,
    email: string,
    phone: string,
    website: string,
    companyName: string)

  datatype Field = Name | Email | Phone | Website | CompanyName

  /** The callback the modal invokes, if any. */
  datatype ModalCall = NoCall | OnSave(updated: User) | OnCancel

  /** The form values shown for a user. */
  function FormOf(u: User): (v: FormValues)
    ensures v.name == u.name && v.email == u.email && v.phone == u.phone
    ensures v.website == u.website && v.companyName == u.company.name
  {
    FormValues(u.name, u.email, u.phone, u.website, u.company.name)
  }

  /** The prefill effect: the form is filled only when a user is given and the modal is visible. */
  function Prefill(user: Option<User>, visible: bool): (r: Option<FormValues>)
    ensures r.Some? <==> user.Some? && visible
    ensures r.Some? ==>
      && r.value.name == user.value.name
      && r.value.email == user.value.email
      && r.value.phone == user.value.phone
      && r.value.website == user.value.website
      && r.value.companyName == user.value.company.name
  {
    if user.Some? && visible then Some(FormOf(user.value)) else None
  }

  /** One field's rules: `required` (a non-empty string), and for the email also the
      email-type rule, whose pattern is the parameter `isEmail`. */
  predicate FieldValid(v: FormValues, f: Field, isEmail: string -> bool) {
    match f
    case Name => v.name != ""
    case Email => v.email != "" && isEmail(v.email)
    case Phone => v.phone != ""
    case Website => v.website != ""
    case CompanyName => v.companyName != ""
  }

  /** The whole form passes validation. */
  predicate FormValid(v: FormValues, isEmail: string -> bool) {
    && v.name != ""
    && v.email != "" && isEmail(v.email)
    && v.phone != ""
    && v.website != ""
    && v.companyName != ""
  }

  /** The fields whose rules fail, in form order. */
  function FailingFields(v: FormValues, isEmail: string -> bool): seq<Field> {
    (if FieldValid(v, Name, isEmail) then [] else [Name])
    + (if FieldValid(v, Email, isEmail) then [] else [Email])
    + (if FieldValid(v, Phone, isEmail) then [] else [Phone])
    + (if FieldValid(v, Website, isEmail) then [] else [Website])
    + (if FieldValid(v, CompanyName, isEmail) then [] else [CompanyName])
  }

  /** `form.validateFields()`: the values when every rule passes, otherwise the failing fields. */
  function ValidateFields(v: FormValues, isEmail: string -> bool): (r: Result<FormValues, seq<Field>>)
    ensures r.Success? <==> FormValid(v, isEmail)
    ensures r.Success? ==> r.value == v
    ensures r.Failure? ==> r.error != [] && forall f :: f in r.error <==> !FieldValid(v, f, isEmail)
  {
    var failing := FailingFields(v, isEmail);
    if failing == [] then Success(v) else Failure(failing)
  }

  /** The spread `{...user, name, email, phone, website, company: {name: companyName}}`. */
  function Merge(u: User, v: FormValues): (r: User)
    ensures FormOf(r) == v
    ensures r.id == u.id && r.username == u.username && r.address == u.address && r.liked == u.liked
  {
    u.(name := v.name, email := v.email, phone := v.phone, website := v.website,
       company := Company(v.companyName))
  }

  /** `handleSave`: `onSave` is called with the merged record exactly when validation
      passes and a user is being edited; the saved record satisfies every field rule. */
  function HandleSave(user: Option<User>, v: FormValues, isEmail: string -> bool): (call: ModalCall)
    ensures !call.OnCancel?
    ensures call.OnSave? <==> user.Some? && FormValid(v, isEmail)
    ensures call.OnSave? ==> call.updated == Merge(user.value, v)
    ensures call.OnSave? ==>
      && call.updated.name != "" && call.updated.phone != "" && call.updated.website != ""
      && call.updated.company.name != "" && call.updated.email != "" && isEmail(call.updated.email)
  {
    match ValidateFields(v, isEmail)
    case Failure(_) => NoCall
    case Success(values) => if user.Some? then OnSave(Merge(user.value, values)) else NoCall
  }

  /** `handleCancel`: calls `onCancel`, never `onSave`. */
  function HandleCancel(): (call: ModalCall)
    ensures call == OnCancel
  {
    OnCancel
  }

  /** The merge keeps the record's identity and everything the form does not show. */
  lemma MergeKeeps(u: User, v: FormValues)
    ensures var m := Merge(u, v);
      m.id == u.id && m.username == u.username && m.address == u.address && m.liked == u.liked
  {
  }

  /** The merge takes every shown field from the form: reading the form back gives the submitted values. */
  lemma FormOfMerge(u: User, v: FormValues)
    ensures FormOf(Merge(u, v)) == v
  {
  }

  /** Saving a user's own prefilled values gives back the user: a company has only a name. */
  lemma MergeFormOf(u: User)
    ensures Merge(u, FormOf(u)) == u
  {
  }

  /** Different submitted values give different records: the merge is injective in the values. */
  lemma MergeInjective(u: User, v: FormValues, w: FormValues)
    requires Merge(u, v) == Merge(u, w)
    ensures v == w
  {
    FormOfMerge(u, v);
    FormOfMerge(u, w);
  }

  /** An empty name, or an email the email rule rejects, is never saved. */
  lemma InvalidNeverSaved(user: Option<User>, v: FormValues, isEmail: string -> bool)
    requires v.name == "" || !isEmail(v.email)
    ensures HandleSave(user, v, isEmail) == NoCall
  {
  }
}
