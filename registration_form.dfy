/**
 * The state of the registration form: the value typed into each field
 * (`formData`) and the message last computed for each field that has been
 * edited (`formErrors`). Every change of a field updates both maps at that key;
 * the form may be submitted only when every recorded message is empty and
 * every field holds something.
 */
module RegistrationForm {
  import opened Wrappers
  import opened FieldValidation

  class Form {
    var formData: map<string, string>
    var formErrors: map<string, string>

    /**
     * Every field of the form has a value; every recorded message is the
     * validator's verdict on the field's current value; a field without a
     * recorded message still holds its initial empty value.
     */
    ghost predicate Valid()
      reads this
    {
      FieldNames <= formData.Keys &&
      (forall k :: k in formErrors ==> k in formData && formErrors[k] == ValidateField(k, formData[k])) &&
      (forall k :: k in formData && k !in formErrors ==> formData[k] == "")
    }

    /** All eight fields empty, no messages yet. */
    constructor ()
      ensures Valid()
      ensures formData == map k | k in FieldNames :: ""
      ensures formErrors == map[]
    {
      formData := map k | k in FieldNames :: "";
      formErrors := map[];
    }

    /**
     * `isFormValid`: no recorded message and no empty field. While the form is
     * consistent this holds exactly when every field is non-empty and passes
     * its rule.
     */
    function IsFormValid(): (ok: bool)
      reads this
      ensures Valid() ==> (ok <==> forall k :: k in formData ==> formData[k] != "" && Accepts(k, formData[k]))
    {
      (forall k | k in formErrors :: formErrors[k] == "") &&
      (forall k | k in formData :: formData[k] != "")
    }

    /**
     * `handleChange`: the edited field takes the new value and the validator's
     * verdict on it; every other field and message is left as it was. A field
     * made empty or invalid closes the submit gate.
     */
    method HandleChange(name: string, value: string)
      requires Valid()
      modifies this
      ensures Valid()
      ensures formData == old(formData)[name := value]
      ensures formErrors == old(formErrors)[name := ValidateField(name, value)]
      ensures value == "" || !Accepts(name, value) ==> !IsFormValid()
    {
      var verdict := ValidateField(name, value);
      formData := formData[name := value];
      formErrors := formErrors[name := verdict];
      assert formData[name] == value && formErrors[name] == verdict;
      assert verdict == "" <==> Accepts(name, value);
    }

    /**
     * `handleSubmit`: nothing happens unless the form is valid; otherwise the
     * request body is every field with the password replaced by its hash. The
     * body is returned instead of posted.
     */
    method HandleSubmit(hash: string -> string) returns (body: Option<map<string, string>>)
      requires Valid()
      ensures body.Some? <==> IsFormValid()
      ensures body.Some? ==> forall f :: f in FieldNames ==> f in formData && Accepts(f, formData[f])
      ensures body.Some? ==> "password" in formData && body.value == formData["password" := hash(formData["password"])]
    {
      if !IsFormValid() {
        return None;
      }
      body := Some(formData["password" := hash(formData["password"])]);
    }
  }

}
