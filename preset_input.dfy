/**
 * components/PresetInput.tsx: a numeric text field with preset buttons. It keeps
 * the text being typed apart from the number last sent to the parent, so that an
 * empty or half-typed field is not overwritten, and clamps to [min, max] on blur.
 */
module PresetInput {
  import opened Wrappers
  import opened Text

  /** The props `min`, `max` and `presets` when the parent leaves them out. */
  const DefaultMin := 1
  const DefaultMax := 50
  const DefaultPresets: seq<int> := [2, 3, 4, 6, 8]

  /** The number a blur settles on: NaN or below `min` gives `min`, above `max` gives `max`. */
  function ClampOnBlur(parsed: Option<int>, min: int, max: int): (v: int)
    ensures min <= max ==> min <= v <= max
    ensures parsed.Some? && min <= parsed.value <= max ==> v == parsed.value
    ensures parsed.None? ==> v == min
    ensures parsed.Some? && parsed.value < min ==> v == min
    ensures parsed.Some? && parsed.value >= min && parsed.value > max ==> v == max
  {
    if parsed.None? || parsed.value < min then min
    else if parsed.value > max then max
    else parsed.value
  }

  /** Blurring a field that has just been blurred settles on the same number again. */
  lemma BlurIdempotent(text: string, min: int, max: int)
    requires min <= max
    ensures var v := ClampOnBlur(ParseInt(text), min, max);
      ClampOnBlur(ParseInt(IntToString(v)), min, max) == v
  {
    ParseIntOfIntToString(ClampOnBlur(ParseInt(text), min, max));
  }

  class PresetInput {
    const min: int
    const max: int
    const presets: seq<int>
    /** The `value` prop of the latest render. */
    var value: int
    /** The `textValue` state: what the field shows. */
    var textValue: string
    /** The `lastEmitted` ref. */
    var lastEmitted: int
    /** Every number passed to `onChange`, in order. */
    var emitted: seq<int>

    /**
     * Whenever the field's text reads as a number, it reads as the number last
     * exchanged with the parent.
     */
    ghost predicate Valid()
      reads this
    {
      ParseInt(textValue) == None || ParseInt(textValue) == Some(lastEmitted)
    }

    /** The first render with prop `value`. */
    constructor (value: int, min: int, max: int, presets: seq<int>)
      ensures Valid()
      ensures this.value == value && this.min == min && this.max == max && this.presets == presets
      ensures textValue == IntToString(value) && lastEmitted == value && emitted == []
    {
      this.min, this.max, this.presets := min, max, presets;
      this.value := value;
      textValue := IntToString(value);
      lastEmitted := value;
      emitted := [];
      ParseIntOfIntToString(value);
    }

    /** The first render of a field given only its `value`: the default bounds and presets. */
    constructor WithDefaults(value: int)
      ensures Valid()
      ensures this.value == value && min == DefaultMin && max == DefaultMax && presets == DefaultPresets
      ensures textValue == IntToString(value) && lastEmitted == value && emitted == []
    {
      min, max, presets := DefaultMin, DefaultMax, DefaultPresets;
      this.value := value;
      textValue := IntToString(value);
      lastEmitted := value;
      emitted := [];
      ParseIntOfIntToString(value);
    }

    /**
     * A re-render with prop `newValue`. The effect runs only when the prop changed,
     * and overwrites the text only when the prop differs from what was last emitted.
     */
    method ReceiveProp(newValue: int)
      requires Valid()
      modifies this`value, this`textValue, this`lastEmitted
      ensures Valid()
      ensures value == newValue
      ensures if newValue != old(value) && newValue != old(lastEmitted)
              then textValue == IntToString(newValue) && lastEmitted == newValue
              else textValue == old(textValue) && lastEmitted == old(lastEmitted)
    {
      var changed := newValue != value;
      value := newValue;
      if changed && newValue != lastEmitted {
        textValue := IntToString(newValue);
        lastEmitted := newValue;
        ParseIntOfIntToString(newValue);
      }
    }

    /**
     * `handleChange`: the text always follows the input; an empty or unparsable text
     * emits nothing, a parsable one is emitted as typed, without clamping.
     */
    method HandleChange(val: string)
      requires Valid()
      modifies this`textValue, this`lastEmitted, this`emitted
      ensures Valid()
      ensures textValue == val
      ensures val == "" || ParseInt(val).None? ==> lastEmitted == old(lastEmitted) && emitted == old(emitted)
      ensures val != "" && ParseInt(val).Some? ==>
        lastEmitted == ParseInt(val).value && emitted == old(emitted) + [ParseInt(val).value]
    {
      textValue := val;
      if val == "" {
        return;
      }
      var parsed := ParseInt(val);
      if parsed.Some? {
        lastEmitted := parsed.value;
        emitted := emitted + [parsed.value];
      }
    }

    /**
     * `handleBlur`: the text is replaced by the clamped number, which is emitted
     * only when it differs from the number last emitted.
     */
    method HandleBlur()
      requires Valid()
      modifies this`textValue, this`lastEmitted, this`emitted
      ensures Valid() && ParseInt(textValue) == Some(lastEmitted)
      ensures lastEmitted == ClampOnBlur(ParseInt(old(textValue)), min, max)
      ensures textValue == IntToString(lastEmitted)
      ensures emitted == old(emitted) + (if lastEmitted != old(lastEmitted) then [lastEmitted] else [])
      ensures min <= max ==> min <= lastEmitted <= max
    {
      var parsed := ParseInt(textValue);
      var v: int;
      if parsed.None? || parsed.value < min {
        v := min;
      } else if parsed.value > max {
        v := max;
      } else {
        v := parsed.value;
      }
      textValue := IntToString(v);
      if v != lastEmitted {
        lastEmitted := v;
        emitted := emitted + [v];
      }
      ParseIntOfIntToString(v);
    }

    /** A preset button: text, `lastEmitted` and the emitted number all become `num`. */
    method ClickPreset(num: int)
      requires Valid() && num in presets
      modifies this`textValue, this`lastEmitted, this`emitted
      ensures Valid() && ParseInt(textValue) == Some(num)
      ensures lastEmitted == num && textValue == IntToString(num)
      ensures emitted == old(emitted) + [num]
    {
      lastEmitted := num;
      textValue := IntToString(num);
      emitted := emitted + [num];
      ParseIntOfIntToString(num);
    }
  }
}
