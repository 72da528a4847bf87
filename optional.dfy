/** mart::Optional<T>: a value together with a flag that says whether it is
    valid. */
module Optionals {
  import opened Wrappers

  datatype OptFlag = Invalid | Valid

  class Optional<T(0)> {
    var data: T
    var flag: OptFlag

    /** Optional(): the flag starts Invalid; data is default-initialised. */
    constructor Empty()
      ensures flag == Invalid
      ensures !IsValid() && GetData() == Err(InvalidArgument)
    {
      flag := Invalid;
    }

    /** Optional(const T&) and Optional(T&&): valid and holding the value. */
    constructor Of(v: T)
      ensures data == v && flag == Valid
      ensures IsValid() && GetData() == Ok(v)
    {
      data := v;
      flag := Valid;
    }

    /** The defaulted copy and move constructors copy both fields. */
    constructor CopyOf(other: Optional<T>)
      ensures data == other.data && flag == other.flag
      ensures GetData() == other.GetData()
    {
      data := other.data;
      flag := other.flag;
    }

    /** The defaulted copy and move assignments copy both fields. */
    method AssignFrom(other: Optional<T>)
      modifies this
      ensures data == old(other.data) && flag == old(other.flag)
      ensures GetData() == old(other.GetData())
    {
      data, flag := other.data, other.flag;
    }

    /** getData(): the value when valid; throws invalid_argument otherwise. */
    function GetData(): (r: Result<T>)
      reads this
      ensures r.Ok? <==> IsValid()
      ensures r.Ok? ==> r.value == data
      ensures r.Err? ==> r.error == InvalidArgument
    {
      if flag != Valid then Err(InvalidArgument) else Ok(data)
    }

    /** setData(v): stores v and marks the Optional valid. */
    method SetData(v: T)
      modifies this
      ensures data == v && flag == Valid
      ensures IsValid() && GetData() == Ok(v)
    {
      data := v;
      flag := Valid;
    }

    /** operator*: the stored value, without checking the flag. */
    function Value(): (r: T)
      reads this
      ensures IsValid() ==> GetData() == Ok(r)
    {
      data
    }

    function GetState(): OptFlag
      reads this
    {
      flag
    }

    /** isValid(): the state is Valid. */
    predicate IsValid()
      reads this
      ensures IsValid() <==> GetState() == Valid
    {
      flag == Valid
    }

    /** explicit operator bool: the same answer as isValid() and as
        getState() == Valid. */
    predicate ToBool()
      reads this
      ensures ToBool() <==> IsValid()
      ensures ToBool() <==> GetState() == Valid
    {
      IsValid()
    }
  }
}
