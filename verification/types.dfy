/** The record shapes shared by the web client (apps/web/src/types.ts). */
module Types {

  /** A user-defined category that avatars can be grouped under. */
  datatype BodyBase = BodyBase(id: string, name: string)

  /** A user-defined favourites folder. */
  datatype FavFolder = FavFolder(id: string, name: string)

  /** Avatar id to the id of the body base it is assigned to. */
  type AvatarBaseMap = map<string, string>

  /** Avatar id to the id of its favourites folder. */
  type AvatarFavMap = map<string, string>

  /** Avatar id to its free-text tags. */
  type AvatarTagMap = map<string, seq<string>>

  /** The two second-factor methods the upstream service offers. */
  datatype TwoFAMethod = Totp | EmailOtp

  /** The wire name of each method. */
  function MethodName(m: TwoFAMethod): string {
    match m
    case Totp => "totp"
    case EmailOtp => "emailOtp"
  }
}
