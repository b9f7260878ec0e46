// Conditional inclusion of the C preprocessor (section 6.10.1 of C99), for given truth
// values of the conditions.
module Preprocessor {

  datatype Kind = Text | If | Elif | Else | Endif

  // One open group: whether its current branch is kept, whether a branch was taken already,
  // and whether #else was met.
  datatype Frame = Frame(active: bool, taken: bool, elseSeen: bool)

  // A directive is in order: a group is open where one is needed, and nothing but #endif
  // follows #else.
  predicate InOrder(frames: seq<Frame>, kind: Kind) {
    match kind
    case Text => true
    case If => true
    case Elif => frames != [] && !frames[|frames| - 1].elseSeen
    case Else => frames != [] && !frames[|frames| - 1].elseSeen
    case Endif => frames != []
  }

  // A directive that is out of order is an error of the program; here it changes nothing.
  function Step(frames: seq<Frame>, kind: Kind, truth: bool): seq<Frame> {
    var n := |frames| - 1;
    if !InOrder(frames, kind) then frames
    else
      match kind
      case Text => frames
      case If => frames + [Frame(truth, truth, false)]
      case Elif => frames[..n] + [Frame(!frames[n].taken && truth, frames[n].taken || truth, false)]
      case Else => frames[..n] + [Frame(!frames[n].taken, true, true)]
      case Endif => frames[..n]
  }

  predicate Kept(frames: seq<Frame>) {
    forall i :: 0 <= i < |frames| ==> frames[i].active
  }
}
