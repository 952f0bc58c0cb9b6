/** `recommend_outfit`: one clothing phrase chosen by temperature band (degrees Celsius), then
    at most one piece of advice chosen by the first condition keyword that matches, in the
    order rain/drizzle, snow, sunny. */
module Outfit {
  import opened Text

  const HeavyCoat := "Heavy coat, scarf, and gloves"
  const LightJacket := "Light jacket or sweater"
  const TShirt := "T-shirt and light trousers"
  const Umbrella := "don't forget an umbrella or raincoat"
  const Boots := "wear waterproof boots"
  const Sunglasses := "wear sunglasses and a hat"

  /** `"rain" in condition.lower() or "drizzle" in condition.lower()` */
  predicate Rainy(condition: string) {
    Contains(Lower(condition), "rain") || Contains(Lower(condition), "drizzle")
  }

  /** `"snow" in condition.lower()` */
  predicate Snowy(condition: string) {
    Contains(Lower(condition), "snow")
  }

  /** `"sunny" in condition.lower()` */
  predicate Sunny(condition: string) {
    Contains(Lower(condition), "sunny")
  }

  /** The parts of the recommendation, in order: the clothing phrase, then the advice, if any. */
  function OutfitParts(temperature: real, condition: string): (parts: seq<string>)
    ensures 1 <= |parts| <= 2
    ensures parts[0] == HeavyCoat <==> temperature < 10.0
    ensures parts[0] == LightJacket <==> 10.0 <= temperature < 20.0
    ensures parts[0] == TShirt <==> 20.0 <= temperature
    ensures |parts| == 2 && parts[1] == Umbrella <==> Rainy(condition)
    ensures |parts| == 2 && parts[1] == Boots <==> !Rainy(condition) && Snowy(condition)
    ensures |parts| == 2 && parts[1] == Sunglasses <==>
              !Rainy(condition) && !Snowy(condition) && Sunny(condition) && temperature > 20.0
    ensures |parts| == 1 <==>
              !Rainy(condition) && !Snowy(condition) && !(Sunny(condition) && temperature > 20.0)
  {
    var clothing :=
      if temperature < 10.0 then HeavyCoat
      else if temperature < 20.0 then LightJacket
      else TShirt;
    if Rainy(condition) then [clothing, Umbrella]
    else if Snowy(condition) then [clothing, Boots]
    else if Sunny(condition) && temperature > 20.0 then [clothing, Sunglasses]
    else [clothing]
  }

  /** `recommend_outfit(temperature, condition)` */
  method RecommendOutfit(temperature: real, condition: string) returns (r: string)
    ensures r == Join(OutfitParts(temperature, condition), ", ") + "."
  {
    var recommendation: seq<string> := [];
    if temperature < 10.0 {
      recommendation := recommendation + [HeavyCoat];
    } else if temperature < 20.0 {
      recommendation := recommendation + [LightJacket];
    } else {
      recommendation := recommendation + [TShirt];
    }
    var lowered := Lower(condition);
    if Contains(lowered, "rain") || Contains(lowered, "drizzle") {
      recommendation := recommendation + [Umbrella];
    } else if Contains(lowered, "snow") {
      recommendation := recommendation + [Boots];
    } else if Contains(lowered, "sunny") && temperature > 20.0 {
      recommendation := recommendation + [Sunglasses];
    }
    r := Join(recommendation, ", ") + ".";
  }

  /** The text returned starts with the clothing phrase, ends with a full stop, and is that
      phrase alone or that phrase, `", "` and the advice. */
  lemma RecommendationShape(temperature: real, condition: string)
    ensures var parts := OutfitParts(temperature, condition);
            var r := Join(parts, ", ") + ".";
            StartsWith(r, parts[0]) && r[|r| - 1] == '.' &&
            (|parts| == 1 ==> r == parts[0] + ".") &&
            (|parts| == 2 ==> r == parts[0] + ", " + parts[1] + ".")
  {
    var parts := OutfitParts(temperature, condition);
    if |parts| == 2 {
      assert Join(parts, ", ") == parts[0] + ", " + parts[1];
    }
  }

  /** At exactly 20 degrees a sunny day gets a T-shirt and no sunglasses. */
  lemma NoSunglassesAtTwenty(condition: string)
    requires !Rainy(condition) && !Snowy(condition)
    ensures OutfitParts(20.0, condition) == [TShirt]
  {
  }

  function Cased(s: string, upper: bool): string {
    if upper then Upper(s) else Lower(s)
  }

  /** How the caller writes the condition does not matter: its upper- and lower-cased forms
      get the same recommendation as the condition itself. */
  lemma {:induction false} CaseInsensitive(temperature: real, condition: string, upper: bool)
    ensures OutfitParts(temperature, Cased(condition, upper)) == OutfitParts(temperature, condition)
  {
    var c := Cased(condition, upper);
    if upper {
      forall i | 0 <= i < |condition|
        ensures Lower(c)[i] == Lower(condition)[i]
      {
        assert c[i] == UpperChar(condition[i]);
      }
    } else {
      LowerIsLower(condition);
    }
    assert Lower(c) == Lower(condition);
  }

  /** Lower-casing distributes over concatenation. */
  lemma LowerAppend(s: string, u: string)
    ensures Lower(s + u) == Lower(s) + Lower(u)
  {
    assert forall i :: 0 <= i < |s + u| ==> Lower(s + u)[i] == (Lower(s) + Lower(u))[i];
  }

  /** Adding words after a rainy condition keeps the umbrella advice, whatever they say: rain
      outranks snow and sun. */
  lemma {:induction false} RainStaysRainy(temperature: real, condition: string, more: string)
    requires Rainy(condition)
    ensures Rainy(condition + more)
    ensures var parts := OutfitParts(temperature, condition + more);
            |parts| == 2 && parts[1] == Umbrella
  {
    LowerAppend(condition, more);
    if Contains(Lower(condition), "rain") {
      ContainsAppend(Lower(condition), Lower(more), "rain");
    } else {
      ContainsAppend(Lower(condition), Lower(more), "drizzle");
    }
  }
}
