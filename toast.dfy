/** `showToast`: the notification element `formToast`, the class string it
    is given for a notification type, and the fixed error text. */
module Toast {

  /** What the `formToast` element shows: its class attribute and the text of its body. */
  datatype ToastView = ToastView(className: string, body: string)

  /** The text shown when a submission fails. */
  const ErrorMessage: string := "Oops! Something went wrong. Please try again later."

  const ClassPrefix: string := "toast align-items-center text-bg-"
  const ClassSuffix: string := " border-0"

  /** The contextual colour for a notification type: `error` is shown as
      `danger`, `info` as `primary`, and every other type as `success`. */
  function ToastStyle(kind: string): (style: string)
    ensures style == "danger" <==> kind == "error"
    ensures style == "primary" <==> kind == "info"
    ensures style == "success" <==> kind != "error" && kind != "info"
  {
    if kind == "error" then "danger" else if kind == "info" then "primary" else "success"
  }

  /** The class attribute `showToast` writes for a notification type. */
  function ToastClassName(kind: string): string {
    ClassPrefix + ToastStyle(kind) + ClassSuffix
  }

  /** The colour part of a class attribute written by `ToastClassName`. */
  function StyleOf(className: string): string
    requires |ClassPrefix| + |ClassSuffix| <= |className|
  {
    className[|ClassPrefix|..|className| - |ClassSuffix|]
  }

  lemma Unwrapped(p: string, x: string, q: string)
    ensures (p + x + q)[|p|..|p + x + q| - |q|] == x
  {
  }

  /** The colour can be read back from the class attribute, so two types get
      the same class exactly when they get the same colour. */
  lemma StyleRecovered(kind: string)
    ensures |ClassPrefix| + |ClassSuffix| <= |ToastClassName(kind)|
    ensures StyleOf(ToastClassName(kind)) == ToastStyle(kind)
  {
    Unwrapped(ClassPrefix, ToastStyle(kind), ClassSuffix);
  }

  lemma ClassNamesDistinguish(a: string, b: string)
    ensures ToastClassName(a) == ToastClassName(b) <==> ToastStyle(a) == ToastStyle(b)
  {
    StyleRecovered(a);
    StyleRecovered(b);
  }

  /** `showToast(message, type)` with the element present: the body text is
      the message and the class carries the type's colour. */
  function ShowToast(message: string, kind: string): (v: ToastView)
    ensures v.body == message
    ensures |ClassPrefix| + |ClassSuffix| <= |v.className| && StyleOf(v.className) == ToastStyle(kind)
  {
    StyleRecovered(kind);
    ToastView(ToastClassName(kind), message)
  }
}
