/** The `ModelCard` and `ModelGrid` components (components/docs/ModelCard.tsx):
    a card per model, coloured by a gradient looked up by name with "lunaby" as
    the fallback. */
module ModelCard {
  import JsObject

  datatype ModelProps = ModelProps(title: string, description: string, gradient: string)

  const Gradients: map<string, string> := map[
    "lunaby-pro" := "from-rose-500 to-amber-400",
    "lunaby" := "from-purple-500 to-indigo-500",
    "lunaby-vision" := "from-cyan-500 to-pink-400"
  ]

  // ---------------------------------------------------------------------------
  // The gradient as written

  /** What `gradients[gradient] || gradients["lunaby"]` yields: a class string, or
      an inherited `Object.prototype` member, which is truthy and so wins over
      the fallback. */
  datatype GradientValue = ClassName(name: string) | PrototypeMember

  function GradientAsWritten(gradient: string): (g: GradientValue)
    ensures g.PrototypeMember? <==> gradient !in Gradients && gradient in JsObject.PrototypeKeys
  {
    match JsObject.Get(Gradients, gradient)
    case Own(c) => if c != "" then ClassName(c) else ClassName(Gradients["lunaby"])
    case Inherited => PrototypeMember
    case Missing => ClassName(Gradients["lunaby"])
  }

  /** A model whose gradient is `toString` gets no gradient class at all. */
  lemma ToStringHasNoGradient()
    ensures GradientAsWritten("toString") == PrototypeMember
  {
  }

  // ---------------------------------------------------------------------------
  // The gradient as intended

  /** The class of a known gradient, and the "lunaby" class for any other name. */
  function GradientClass(gradient: string): (c: string)
    ensures gradient in Gradients ==> c == Gradients[gradient]
    ensures gradient !in Gradients ==> c == "from-purple-500 to-indigo-500"
    ensures c in Gradients.Values
  {
    if gradient in Gradients then Gradients[gradient] else Gradients["lunaby"]
  }

  /** The two agree on every name that is not an inherited key. */
  lemma GradientAgreesOffPrototype(gradient: string)
    requires gradient !in JsObject.PrototypeKeys
    ensures GradientAsWritten(gradient) == ClassName(GradientClass(gradient))
  {
  }

  // ---------------------------------------------------------------------------
  // Cards

  /** A rendered card. `cn` drops a non-string class argument, so a card whose
      lookup yields a prototype member gets the empty gradient class. */
  datatype Card = Card(heading: string, text: string, gradientClass: string)

  /** `ModelCard`, as written: the gradient comes from `GradientAsWritten`. */
  function RenderCard(m: ModelProps): (c: Card)
    ensures c.heading == m.title && c.text == m.description
    ensures c.gradientClass == "" <==> m.gradient !in Gradients && m.gradient in JsObject.PrototypeKeys
    ensures m.gradient !in JsObject.PrototypeKeys ==> c.gradientClass == GradientClass(m.gradient)
    ensures c.gradientClass != "" ==> c.gradientClass in Gradients.Values
  {
    var g := GradientAsWritten(m.gradient);
    Card(m.title, m.description, if g.ClassName? then g.name else "")
  }

  /** `ModelGrid`: one card per model, in input order. */
  function Grid(models: seq<ModelProps>): (cards: seq<Card>)
    ensures |cards| == |models|
    ensures forall k :: 0 <= k < |models| ==>
              cards[k].heading == models[k].title && cards[k].text == models[k].description
    ensures forall k :: 0 <= k < |models| && models[k].gradient !in JsObject.PrototypeKeys ==>
              cards[k].gradientClass == GradientClass(models[k].gradient)
    ensures forall k :: 0 <= k < |models| ==>
              (cards[k].gradientClass == "" <==> models[k].gradient !in Gradients && models[k].gradient in JsObject.PrototypeKeys)
  {
    seq(|models|, k requires 0 <= k < |models| => RenderCard(models[k]))
  }
}
