/**
 * VALID_ERROR_CONTROLLER: the registry of validators and post-validation
 * handlers, the store of results keyed by validator instance, the
 * "any failure" query that gates form submission, and the bound
 * validator instances that `getValidator` hands out.
 *
 * DOM fields are reduced to what the controller reads of them: the `id`
 * and `name` attributes, `None` where an attribute is missing.
 */
module Controller {
  import opened Wrappers
  import opened Validators

  datatype Field = Field(id: Option<string>, name: Option<string>)

  /** The post-validation handlers registered out of the box. */
  datatype Handler = ErrMsg | CheckErrBox | CleanNotCyrillicSymbols

  /** What `processingAfterValidation` receives as `params`: one value or an array. */
  datatype Params = Single(value: Arg) | List(items: seq<Arg>)

  /** The handler `processingAfterValidation` calls (`None`: the logging
      fallback for an unknown name) and the arguments it passes. */
  datatype Dispatch = Dispatch(handler: Option<Handler>, args: seq<Arg>)

  /** What `run` hands back: the controller (unknown validator), the bound
      instance (result stored), or nothing because the validator threw. */
  datatype RunOutcome = ReturnedController | ReturnedInstance | ThrewTypeError

  /** `window.VALIDATORS`, as it is attached at start-up. */
  const DefaultValidators: map<string, Builtin> :=
    map["EQUAL" := EQUAL, "REQUIRE" := REQUIRE, "CYRILLIC_LNG" := CYRILLIC_LNG, "EMAIL" := EMAIL]

  /** The handlers attached at start-up. */
  const DefaultHandlers: map<string, Handler> :=
    map["MSG_ERR" := ErrMsg, "CHECK_ERR_BOX" := CheckErrBox,
        "CLEAN_NOT_CYRILLIC_SYMBOLS" := CleanNotCyrillicSymbols]

  /** The identity of a validator instance: the validator name, then the
      field's id, then its name, joined with no delimiter. */
  function Identity(validName: string, field: Field): (r: string)
    ensures |r| == |validName| + |JsText(field.id)| + |JsText(field.name)|
    ensures r[..|validName|] == validName
    ensures r[|validName|..|validName| + |JsText(field.id)|] == JsText(field.id)
    ensures r[|r| - |JsText(field.name)|..] == JsText(field.name)
  {
    validName + JsText(field.id) + JsText(field.name)
  }

  /**
   * Identities can collide: distinct fields of one validator may share a key,
   * so their results overwrite each other: the parts are joined with no
   * delimiter, and a missing attribute reads the same as the text "undefined".
   */
  lemma IdentityCollides(validName: string, name: Option<string>)
    ensures Identity(validName, Field(Some("a"), Some("bc"))) == Identity(validName, Field(Some("ab"), Some("c")))
    ensures Identity(validName, Field(None, name)) == Identity(validName, Field(Some("undefined"), name))
  {
  }

  /** Some stored result is exactly `false`. */
  ghost predicate HasFailure(store: map<string, bool>) {
    exists k :: k in store && !store[k]
  }

  /** Saving `b` under `k` makes the store fail exactly when `b` is false
      or some other entry already fails. */
  lemma {:induction false} HasFailureAfterSave(store: map<string, bool>, k: string, b: bool)
    ensures HasFailure(store[k := b]) <==> !b || HasFailure(store - {k})
  {
    var after := store[k := b];
    if HasFailure(after) {
      var k' :| k' in after && !after[k'];
      if k' != k {
        assert k' in store - {k};
      }
    }
    if HasFailure(store - {k}) {
      var k' :| k' in store - {k} && !(store - {k})[k'];
      assert k' in after && !after[k'];
    }
    if !b {
      assert k in after && !after[k];
    }
  }

  class ValidErrorController {
    /** Validators taken under control, by name. */
    var attachValid: map<string, Builtin>
    /** Post-validation handlers, by name. */
    var attachValidHandlers: map<string, Handler>
    /** The last result of every validator instance, by identity. */
    var validStatus: map<string, bool>

    constructor ()
      ensures attachValid == map[] && attachValidHandlers == map[] && validStatus == map[]
      ensures !HasFailure(validStatus)
    {
      attachValid, attachValidHandlers, validStatus := map[], map[], map[];
    }

    /** The stored result for `vId`; `None` (undefined) when it was never saved. */
    function GetValidStatus(vId: string): (r: Option<bool>)
      reads this
      ensures r.None? <==> vId !in validStatus
      ensures r.Some? ==> validStatus[vId] == r.value
    {
      if vId in validStatus then Some(validStatus[vId]) else None
    }

    /** Record `result` under `vId`, overwriting an earlier result for it. */
    method SaveValidResult(vId: string, result: bool)
      modifies this
      ensures validStatus == old(validStatus)[vId := result]
      ensures GetValidStatus(vId) == Some(result)
      ensures forall k :: k != vId ==> GetValidStatus(k) == old(GetValidStatus(k))
      ensures HasFailure(validStatus) <==> !result || HasFailure(old(validStatus) - {vId})
      ensures attachValid == old(attachValid) && attachValidHandlers == old(attachValidHandlers)
    {
      HasFailureAfterSave(validStatus, vId, result);
      validStatus := validStatus[vId := result];
    }

    /** The `for-in` scan: is some stored result exactly `false`? */
    method HasError() returns (r: bool)
      ensures r <==> HasFailure(validStatus)
    {
      var unseen := validStatus.Keys;
      while unseen != {}
        invariant unseen <= validStatus.Keys
        invariant forall k :: k in validStatus && k !in unseen ==> validStatus[k]
        decreases unseen
      {
        var item :| item in unseen;
        if !validStatus[item] {
          return true;
        }
        unseen := unseen - {item};
      }
      return false;
    }

    /** Whether `sendForm` submits the form: only when no result failed. */
    method SendForm() returns (submit: bool)
      ensures submit <==> !HasFailure(validStatus)
      ensures submit <==> forall k :: k in validStatus ==> validStatus[k]
    {
      var failed := HasError();
      submit := !failed;
    }

    /** Merge `validatorsList` into the registry: its names win, other entries stay. */
    method AttachValidator(validatorsList: map<string, Builtin>) returns (self: ValidErrorController)
      modifies this
      ensures self == this
      ensures attachValid.Keys == old(attachValid).Keys + validatorsList.Keys
      ensures forall n :: n in validatorsList ==> attachValid[n] == validatorsList[n]
      ensures forall n :: n in old(attachValid) && n !in validatorsList ==> attachValid[n] == old(attachValid)[n]
      ensures attachValidHandlers == old(attachValidHandlers) && validStatus == old(validStatus)
    {
      attachValid := attachValid + validatorsList;
      self := this;
    }

    /** Merge `validHandlersList` into the handler registry, the same way. */
    method AttachHandlersAfterValid(validHandlersList: map<string, Handler>) returns (self: ValidErrorController)
      modifies this
      ensures self == this
      ensures attachValidHandlers.Keys == old(attachValidHandlers).Keys + validHandlersList.Keys
      ensures forall n :: n in validHandlersList ==> attachValidHandlers[n] == validHandlersList[n]
      ensures forall n :: n in old(attachValidHandlers) && n !in validHandlersList ==>
                attachValidHandlers[n] == old(attachValidHandlers)[n]
      ensures attachValid == old(attachValid) && validStatus == old(validStatus)
    {
      attachValidHandlers := attachValidHandlers + validHandlersList;
      self := this;
    }

    /** The handler registered under `handlerName`; `None` stands for the
        fallback that only logs. */
    function GetHandlerAfterValid(handlerName: string): (r: Option<Handler>)
      reads this
      ensures r.None? <==> handlerName !in attachValidHandlers
      ensures r.Some? ==> attachValidHandlers[handlerName] == r.value
    {
      if handlerName in attachValidHandlers then Some(attachValidHandlers[handlerName]) else None
    }

    /** A fresh, unbound instance of validator `validName`; the name is looked
        up only when the instance runs. */
    method GetValidator(validName: string) returns (b: BoundValidator)
      ensures fresh(b)
      ensures b.ctrl == this && b.validName == validName
      ensures b.validateJqObj.None? && b.vId.None? && b.validStatus.None?
    {
      b := new BoundValidator(this, validName);
    }
  }

  /** A validator bound to one field: what `getValidator` returns. */
  class BoundValidator {
    const ctrl: ValidErrorController
    const validName: string
    /** The field the instance validates, once `applyTo` has run. */
    var validateJqObj: Option<Field>
    /** The instance's identity, once `applyTo` has run. */
    var vId: Option<string>
    /** The instance's last result, once `run` has stored one. */
    var validStatus: Option<bool>

    constructor (ctrl: ValidErrorController, validName: string)
      ensures this.ctrl == ctrl && this.validName == validName
      ensures validateJqObj.None? && vId.None? && validStatus.None?
    {
      this.ctrl, this.validName := ctrl, validName;
      validateJqObj, vId, validStatus := None, None, None;
    }

    /** Bind the instance to `field` and derive its identity. */
    method ApplyTo(field: Field) returns (self: BoundValidator)
      modifies this
      ensures self == this
      ensures validateJqObj == Some(field) && vId == Some(Identity(validName, field))
      ensures validStatus == old(validStatus)
    {
      validateJqObj := Some(field);
      vId := Some(Identity(validName, field));
      self := this;
    }

    /**
     * Run the validator on `args`. An unknown name changes nothing and hands
     * back the controller. Otherwise the result becomes the instance's and is
     * stored under its identity; an instance never bound stores under the key
     * "undefined", since a missing `vId` is only logged.
     */
    method Run(args: seq<Arg>) returns (outcome: RunOutcome)
      modifies this, ctrl
      ensures validName !in old(ctrl.attachValid) ==>
                outcome == ReturnedController && ctrl.validStatus == old(ctrl.validStatus) &&
                validStatus == old(validStatus)
      ensures validName in old(ctrl.attachValid) && Apply(old(ctrl.attachValid)[validName], args).None? ==>
                outcome == ThrewTypeError && ctrl.validStatus == old(ctrl.validStatus) &&
                validStatus == old(validStatus)
      ensures validName in old(ctrl.attachValid) && Apply(old(ctrl.attachValid)[validName], args).Some? ==>
                var result := Apply(old(ctrl.attachValid)[validName], args).value;
                outcome == ReturnedInstance && validStatus == Some(result) &&
                ctrl.validStatus == old(ctrl.validStatus)[JsText(vId) := result]
      ensures ctrl.attachValid == old(ctrl.attachValid)
      ensures ctrl.attachValidHandlers == old(ctrl.attachValidHandlers)
      ensures validateJqObj == old(validateJqObj) && vId == old(vId)
    {
      if validName !in ctrl.attachValid {
        return ReturnedController;
      }
      var result := Apply(ctrl.attachValid[validName], args);
      if result.None? {
        return ThrewTypeError;
      }
      validStatus := result;
      ctrl.SaveValidResult(JsText(vId), result.value);
      return ReturnedInstance;
    }

    /** Which handler `handleName` resolves to and the argument list it gets:
        an array is passed as it is, any other value as a one-element list. */
    method ProcessingAfterValidation(handleName: string, params: Params) returns (d: Dispatch)
      ensures d.handler.None? <==> handleName !in ctrl.attachValidHandlers
      ensures d.handler.Some? ==> d.handler.value == ctrl.attachValidHandlers[handleName]
      ensures params.List? ==> d.args == params.items
      ensures params.Single? ==> |d.args| == 1 && d.args[0] == params.value
    {
      var items := match params
        case List(xs) => xs
        case Single(v) => [v];
      d := Dispatch(ctrl.GetHandlerAfterValid(handleName), items);
    }
  }

  /**
   * REQUIRE on one field, first with an empty value and then with a filled
   * one: the stored result follows the last run, and so do `hasError` and
   * `sendForm`.
   */
  method RequireThenFill(field: Field)
    returns (statusEmpty: Option<bool>, errorEmpty: bool, statusFilled: Option<bool>,
             errorFilled: bool, submitted: bool)
    ensures statusEmpty == Some(false) && errorEmpty
    ensures statusFilled == Some(true) && !errorFilled && submitted
  {
    var c := new ValidErrorController();
    var _ := c.AttachValidator(DefaultValidators);
    var v := c.GetValidator("REQUIRE");
    var _ := v.ApplyTo(field);
    var id := Identity("REQUIRE", field);
    var _ := v.Run([Some("")]);
    statusEmpty := c.GetValidStatus(id);
    errorEmpty := c.HasError();
    var _ := v.Run([Some("nonempty")]);
    statusFilled := c.GetValidStatus(id);
    errorFilled := c.HasError();
    submitted := c.SendForm();
  }

  /** An unknown validator name: `run` hands back the controller and the store
      stays as it was. */
  method UnknownValidator(field: Field, args: seq<Arg>)
    returns (outcome: RunOutcome, status: Option<bool>, error: bool)
    ensures outcome == ReturnedController && status.None? && !error
  {
    var c := new ValidErrorController();
    var _ := c.AttachValidator(DefaultValidators);
    var v := c.GetValidator("UNKNOWN_NAME");
    var _ := v.ApplyTo(field);
    outcome := v.Run(args);
    status := c.GetValidStatus(Identity("UNKNOWN_NAME", field));
    error := c.HasError();
  }

  /** `run` before `applyTo`: the missing identity is only logged, and the
      result is stored under the key "undefined". */
  method RunWithoutApplyTo(value: string) returns (outcome: RunOutcome, status: Option<bool>)
    ensures outcome == ReturnedInstance && status == Some(value != "")
  {
    var c := new ValidErrorController();
    var _ := c.AttachValidator(DefaultValidators);
    var v := c.GetValidator("REQUIRE");
    outcome := v.Run([Some(value)]);
    status := c.GetValidStatus("undefined");
  }
}
